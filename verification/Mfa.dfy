/** The enrolment rows of `mfa_enrollments`: a secret, whether it has been verified, and the counter of the
    code that was accepted last. */
module Mfa {
  import opened Wrappers
  import opened Text
  import opened Base32
  import opened Totp
  import Base32Codec

  /** The secret stands for its encryption, which only this service can undo. */
  datatype Enrollment = Enrollment(secret: string, verifiedAt: Option<int>, lastUsedCounter: Option<int>)

  datatype MfaError =
    | MfaEnrollmentAuthorization
    | MfaEnrollmentRequired
    | InvalidMfaChallenge
    | CounterCheckViolated

  datatype Outcome = NotRequired | Verified

  /** `generateTotpCode` */
  function GenerateTotpCode(hmac: Hmac, secret: string, counter: int): Result<string, DecodeError> {
    match Decode(secret)
    case Err(e) => Err(e)
    case Ok(key) => Ok(Code(hmac(key, CounterBytes(counter))))
  }

  /** The code of the counter is this one. */
  predicate CodeMatches(hmac: Hmac, secret: string, counter: int, code: string) {
    GenerateTotpCode(hmac, secret, counter) == Ok(code)
  }

  /** `matchingCounter`: the first of the current and the previous counter whose code was given. */
  function MatchingCounter(hmac: Hmac, secret: string, code: string, now: int): Result<Option<int>, MfaError> {
    var current := Counter(now);
    if !SixDigits(code) then Ok(None)
    else if GenerateTotpCode(hmac, secret, current).Err? then Err(InvalidMfaChallenge)
    else if CodeMatches(hmac, secret, current, code) then Ok(Some(current))
    else if CodeMatches(hmac, secret, current - 1, code) then Ok(Some(current - 1))
    else Ok(None)
  }

  /** The test of the format never turns a right code away. */
  lemma MatchesExactly(hmac: Hmac, secret: string, code: string, now: int)
    requires Decode(secret).Ok?
    ensures var matching := MatchingCounter(hmac, secret, code, now); var current := Counter(now);
      && matching.Ok?
      && (matching.value.Some? <==> exists c | current - 1 <= c <= current :: CodeMatches(hmac, secret, c, code))
      && (matching.value.Some? ==>
            && current - 1 <= matching.value.value <= current
            && CodeMatches(hmac, secret, matching.value.value, code)
            && forall c | matching.value.value < c <= current :: !CodeMatches(hmac, secret, c, code))
  {
    hide Decode, Code, SixDigits, CounterBytes, Counter, GenerateTotpCode;
    var current := Counter(now);
    MatchingCodeHasFormat(hmac, secret, current, code);
    MatchingCodeHasFormat(hmac, secret, current - 1, code);
    CodesAreGenerated(hmac, secret, current);
    hide CodeMatches;
  }

  lemma MatchingCodeHasFormat(hmac: Hmac, secret: string, counter: int, code: string)
    ensures CodeMatches(hmac, secret, counter, code) ==> SixDigits(code)
  {
    hide Decode, Code, SixDigits, CounterBytes;
    if CodeMatches(hmac, secret, counter, code) {
      CodeIsSixDigits(hmac(Decode(secret).value, CounterBytes(counter)));
    }
  }

  lemma CodesAreGenerated(hmac: Hmac, secret: string, counter: int)
    ensures Decode(secret).Ok? <==> GenerateTotpCode(hmac, secret, counter).Ok?
  {
  }

  function LastUsed(row: Enrollment): int {
    match row.lastUsedCounter
    case Some(c) => c
    case None => -1
  }

  // ----- the three transactions on a row -----

  /** A counter below zero violates `mfa_last_used_counter_check`; the transaction is rolled back. */
  function WithCounter(row: Enrollment, counter: int): Result<Enrollment, MfaError> {
    if counter < 0 then Err(CounterCheckViolated) else Ok(row.(lastUsedCounter := Some(counter)))
  }

  function Begun(bytes: seq<Byte>): Enrollment {
    Enrollment(Encode(bytes), None, None)
  }

  function VerifiedRow(hmac: Hmac, row: Option<Enrollment>, code: string, now: int): Result<Enrollment, MfaError> {
    if row.None? || row.value.verifiedAt.Some? then Err(InvalidMfaChallenge)
    else
      match MatchingCounter(hmac, row.value.secret, code, now)
      case Err(e) => Err(e)
      case Ok(None) => Err(InvalidMfaChallenge)
      case Ok(Some(counter)) => WithCounter(row.value.(verifiedAt := Some(now)), counter)
  }

  function ChallengedRow(hmac: Hmac, row: Option<Enrollment>, code: Option<string>, now: int)
    : Result<Enrollment, MfaError>
  {
    if row.None? || row.value.verifiedAt.None? then Err(MfaEnrollmentRequired)
    else if code.None? || code.value == "" then Err(InvalidMfaChallenge)
    else
      match MatchingCounter(hmac, row.value.secret, code.value, now)
      case Err(e) => Err(e)
      case Ok(None) => Err(InvalidMfaChallenge)
      case Ok(Some(counter)) =>
        if LastUsed(row.value) >= counter then Err(InvalidMfaChallenge) else WithCounter(row.value, counter)
  }

  /** A device that holds the secret shows the code at a counter of the window: the current period of thirty seconds or
      the one before. */
  ghost predicate Fits(hmac: Hmac, secret: string, c: int, code: string, now: int) {
    && c * 30_000 <= now < (c + 2) * 30_000
    && Decode(secret).Ok? && ShowsCode(hmac, Decode(secret).value, c, code)
  }

  lemma FitsExactly(hmac: Hmac, secret: string, c: int, code: string, now: int)
    ensures Fits(hmac, secret, c, code, now)
      <==> Counter(now) - 1 <= c <= Counter(now) && CodeMatches(hmac, secret, c, code)
  {
    WindowOfTwo(now, c);
    hide Decode, ShowsCode, Code, CounterBytes, Counter;
    if Decode(secret).Ok? {
      CodeFollowsStandard(hmac, Decode(secret).value, c, code);
    }
  }

  /** A challenge is met exactly by the code of a counter of the window that is newer than the last one. */
  lemma ChallengeMetExactly(hmac: Hmac, row: Enrollment, code: string, now: int)
    requires row.verifiedAt.Some? && LastUsed(row) >= -1 && Decode(row.secret).Ok?
    ensures ChallengedRow(hmac, Some(row), Some(code), now).Ok?
      <==> exists c :: c > LastUsed(row) && Fits(hmac, row.secret, c, code, now)
  {
    hide Fits;
    MatchesExactly(hmac, row.secret, code, now);
    forall c {
      FitsExactly(hmac, row.secret, c, code, now);
    }
    var current := Counter(now);
    if CodeMatches(hmac, row.secret, current, code) || CodeMatches(hmac, row.secret, current - 1, code) {
      CodeIsNotEmpty(hmac, row.secret, code, now);
    }
    hide MatchingCounter, CodeMatches, Counter, Decode;
  }

  /** An enrolment is verified exactly once, by the code of a counter of the window that is not before 1970. */
  lemma EnrollmentVerifiedExactly(hmac: Hmac, row: Enrollment, code: string, now: int)
    requires Decode(row.secret).Ok?
    ensures VerifiedRow(hmac, Some(row), code, now).Ok?
      <==> row.verifiedAt.None? && exists c :: c >= 0 && Fits(hmac, row.secret, c, code, now)
    ensures VerifiedRow(hmac, Some(row), code, now).Ok? ==>
      VerifiedRow(hmac, Some(row), code, now).value.verifiedAt == Some(now)
  {
    hide Fits;
    MatchesExactly(hmac, row.secret, code, now);
    forall c {
      FitsExactly(hmac, row.secret, c, code, now);
    }
    hide MatchingCounter, CodeMatches, Counter, Decode;
  }

  /** A counter of the window has the code, and is the one that the row remembers. */
  ghost predicate Accepts(hmac: Hmac, before: Enrollment, after: Enrollment, code: string, now: int) {
    && after.lastUsedCounter.Some? && after.lastUsedCounter.value >= 0
    && Fits(hmac, before.secret, after.lastUsedCounter.value, code, now)
    && after == before.(lastUsedCounter := after.lastUsedCounter, verifiedAt := after.verifiedAt)
  }

  lemma AcceptedByVerification(hmac: Hmac, row: Option<Enrollment>, code: string, now: int)
    ensures VerifiedRow(hmac, row, code, now).Ok? ==>
      && row.Some? && row.value.verifiedAt.None?
      && Accepts(hmac, row.value, VerifiedRow(hmac, row, code, now).value, code, now)
      && VerifiedRow(hmac, row, code, now).value.verifiedAt == Some(now)
  {
    hide Fits, MatchingCounter;
    if VerifiedRow(hmac, row, code, now).Ok? {
      MatchingFits(hmac, row.value.secret, code, now);
    }
  }

  lemma AcceptedByChallenge(hmac: Hmac, row: Option<Enrollment>, code: Option<string>, now: int)
    ensures ChallengedRow(hmac, row, code, now).Ok? ==>
      && row.Some? && row.value.verifiedAt.Some? && code.Some?
      && Accepts(hmac, row.value, ChallengedRow(hmac, row, code, now).value, code.value, now)
      && ChallengedRow(hmac, row, code, now).value.verifiedAt == row.value.verifiedAt
      && ChallengedRow(hmac, row, code, now).value.lastUsedCounter.value > LastUsed(row.value)
  {
    hide Fits, MatchingCounter;
    if ChallengedRow(hmac, row, code, now).Ok? {
      MatchingFits(hmac, row.value.secret, code.value, now);
    }
  }

  lemma MatchingFits(hmac: Hmac, secret: string, code: string, now: int)
    requires MatchingCounter(hmac, secret, code, now).Ok? && MatchingCounter(hmac, secret, code, now).value.Some?
    ensures Fits(hmac, secret, MatchingCounter(hmac, secret, code, now).value.value, code, now)
  {
    hide Fits, GenerateTotpCode, SixDigits;
    FitsExactly(hmac, secret, MatchingCounter(hmac, secret, code, now).value.value, code, now);
  }

  lemma CodeIsNotEmpty(hmac: Hmac, secret: string, code: string, now: int)
    requires MatchingCounter(hmac, secret, code, now).Ok? && MatchingCounter(hmac, secret, code, now).value.Some?
    ensures code != ""
  {
  }

  /** The table, one row per user. The digest function is HMAC with SHA-1. */
  class MfaEnrollments {
    const hmac: Hmac
    var rows: map<string, Enrollment>

    constructor (hmac: Hmac)
      ensures rows == map[] && this.hmac == hmac
    {
      this.hmac := hmac;
      rows := map[];
    }

    function Row(userId: string): Option<Enrollment>
      reads this
    {
      if userId in rows then Some(rows[userId]) else None
    }

    /** `permitted`: the user is active and a platform administrator. `random` is the fresh secret. */
    method BeginMfaEnrollment(userId: string, permitted: bool, random: seq<Byte>)
      returns (result: Result<string, MfaError>)
      modifies this
      ensures result == if permitted then Ok(Encode(random)) else Err(MfaEnrollmentAuthorization)
      ensures rows == if permitted then old(rows)[userId := Begun(random)] else old(rows)
    {
      var secret := Base32Codec.Base32Encode(random);
      if !permitted {
        return Err(MfaEnrollmentAuthorization);
      }
      rows := rows[userId := Enrollment(secret, None, None)];
      result := Ok(secret);
    }

    method VerifyMfaEnrollment(userId: string, code: string, now: int) returns (result: Result<(), MfaError>)
      modifies this
      ensures var after := VerifiedRow(hmac, old(Row(userId)), code, now);
        match after
        case Err(e) => result == Err(e) && rows == old(rows)
        case Ok(row) => result == Ok(()) && rows == old(rows)[userId := row]
      ensures result.Ok? ==>
        && userId in old(rows) && old(rows)[userId].verifiedAt.None? && userId in rows
        && Accepts(hmac, old(rows)[userId], rows[userId], code, now) && rows[userId].verifiedAt == Some(now)
    {
      AcceptedByVerification(hmac, Row(userId), code, now);
      hide Accepts;
      if userId !in rows || rows[userId].verifiedAt.Some? {
        return Err(InvalidMfaChallenge);
      }
      var enrollment := rows[userId];
      var counter := FindCounter(enrollment.secret, code, now);
      if counter.Err? {
        return Err(counter.error);
      }
      if counter.value.None? {
        return Err(InvalidMfaChallenge);
      }
      if counter.value.value < 0 {
        return Err(CounterCheckViolated);
      }
      rows := rows[userId := enrollment.(verifiedAt := Some(now), lastUsedCounter := counter.value)];
      result := Ok(());
    }

    method EnforcePlatformAdminMfa(userId: string, platformAdmin: bool, code: Option<string>, now: int)
      returns (result: Result<Outcome, MfaError>)
      modifies this
      ensures !platformAdmin ==> result == Ok(NotRequired) && rows == old(rows)
      ensures platformAdmin ==>
        match ChallengedRow(hmac, old(Row(userId)), code, now)
        case Err(e) => result == Err(e) && rows == old(rows)
        case Ok(row) => result == Ok(Verified) && rows == old(rows)[userId := row]
      ensures result == Ok(Verified) ==>
        && userId in old(rows) && old(rows)[userId].verifiedAt.Some? && userId in rows
        && code.Some? && Accepts(hmac, old(rows)[userId], rows[userId], code.value, now)
        && rows[userId].verifiedAt == old(rows)[userId].verifiedAt
        && rows[userId].lastUsedCounter.value > LastUsed(old(rows)[userId])
    {
      AcceptedByChallenge(hmac, Row(userId), code, now);
      hide Accepts;
      if !platformAdmin {
        return Ok(NotRequired);
      }
      if userId !in rows || rows[userId].verifiedAt.None? {
        return Err(MfaEnrollmentRequired);
      }
      var enrollment := rows[userId];
      var counter: Option<int> := None;
      if code.Some? && code.value != "" {
        var matching := FindCounter(enrollment.secret, code.value, now);
        if matching.Err? {
          return Err(matching.error);
        }
        counter := matching.value;
      }
      if counter.None? || LastUsed(enrollment) >= counter.value {
        return Err(InvalidMfaChallenge);
      }
      if counter.value < 0 {
        return Err(CounterCheckViolated);
      }
      rows := rows[userId := enrollment.(lastUsedCounter := counter)];
      result := Ok(Verified);
    }

    /** Both codes are generated before either is compared. */
    method FindCounter(secret: string, code: string, now: int) returns (counter: Result<Option<int>, MfaError>)
      ensures counter == MatchingCounter(hmac, secret, code, now)
    {
      hide Decode, Code, SixDigits, CounterBytes, Counter;
      if !SixDigits(code) {
        return Ok(None);
      }
      var counters := [Counter(now), Counter(now) - 1];
      var key := Base32Codec.Base32Decode(secret);
      if key.Err? {
        return Err(InvalidMfaChallenge);
      }
      var codes := [Code(hmac(key.value, CounterBytes(counters[0]))), Code(hmac(key.value, CounterBytes(counters[1])))];
      assert codes[0] == code <==> CodeMatches(hmac, secret, counters[0], code);
      assert codes[1] == code <==> CodeMatches(hmac, secret, counters[1], code);
      var index := 0;
      while index < |codes| && codes[index] != code
        invariant 0 <= index <= |codes|
        invariant forall i | 0 <= i < index :: codes[i] != code
      {
        index := index + 1;
      }
      counter := Ok(if index < |codes| then Some(counters[index]) else None);
    }
  }
}
