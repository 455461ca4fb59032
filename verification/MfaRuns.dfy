/** Whole runs of one user's enrolment row: every sequence of enrolments, verifications and challenges, with
    whatever the clock of the serving process says at each of them. */
module MfaRuns {
  import opened Wrappers
  import opened Text
  import opened Base32
  import opened Totp
  import opened Mfa

  datatype Event =
    | Begin(permitted: bool, random: seq<Byte>)
    | Verify(code: string, now: int)
    | Challenge(platformAdmin: bool, supplied: Option<string>, now: int)

  /** A code that was accepted, in the enrolment with this number. */
  datatype Acceptance = Acceptance(enrollment: int, secret: string, counter: int, code: string, now: int)

  /** The row, with the history that led to it: the secrets drawn and the codes accepted. */
  datatype Account = Account(row: Option<Enrollment>, issued: seq<seq<Byte>>, accepted: seq<Acceptance>)

  const NEW_ACCOUNT := Account(None, [], [])

  function Accept(account: Account, row: Enrollment, code: string, now: int): Account
    requires row.lastUsedCounter.Some?
  {
    var acceptance := Acceptance(|account.issued| - 1, row.secret, row.lastUsedCounter.value, code, now);
    account.(row := Some(row), accepted := account.accepted + [acceptance])
  }

  function Step(hmac: Hmac, account: Account, event: Event): Account {
    match event
    case Begin(permitted, random) =>
      if permitted then account.(row := Some(Begun(random)), issued := account.issued + [random]) else account
    case Verify(code, now) =>
      var after := VerifiedRow(hmac, account.row, code, now);
      if after.Ok? then Accept(account, after.value, code, now) else account
    case Challenge(platformAdmin, supplied, now) =>
      var after := ChallengedRow(hmac, account.row, supplied, now);
      if platformAdmin && after.Ok? then Accept(account, after.value, supplied.value, now) else account
  }

  function Run(hmac: Hmac, events: seq<Event>): Account {
    if events == [] then NEW_ACCOUNT
    else Step(hmac, Run(hmac, events[..|events| - 1]), events[|events| - 1])
  }

  // ----- the invariant -----

  /** The accepted code is the one of a counter of the window, under the secret drawn for its enrolment. */
  predicate Genuine(hmac: Hmac, issued: seq<seq<Byte>>, a: Acceptance) {
    && 0 <= a.enrollment < |issued|
    && a.secret == Encode(issued[a.enrollment])
    && a.counter >= 0
    && Counter(a.now) - 1 <= a.counter <= Counter(a.now)
    && CodeMatches(hmac, a.secret, a.counter, a.code)
  }

  /** Accepted counters are those of earlier enrolments, or at most the one used last. */
  predicate Past(account: Account, a: Acceptance) {
    account.row.Some? && 0 <= a.enrollment < |account.issued|
    && (a.enrollment == |account.issued| - 1 ==> a.counter <= LastUsed(account.row.value))
  }

  predicate Before(a: Acceptance, b: Acceptance) {
    a.enrollment == b.enrollment ==> a.counter < b.counter
  }

  predicate RowInv(account: Account) {
    match account.row
    case None => account.issued == []
    case Some(row) =>
      && |account.issued| > 0
      && row.secret == Encode(account.issued[|account.issued| - 1])
      && LastUsed(row) >= -1
      && (row.verifiedAt.Some? <==> row.lastUsedCounter.Some?)
  }

  ghost predicate Inv(hmac: Hmac, account: Account) {
    && RowInv(account)
    && (forall i | 0 <= i < |account.accepted| :: Genuine(hmac, account.issued, account.accepted[i]))
    && (forall i | 0 <= i < |account.accepted| :: Past(account, account.accepted[i]))
    && (forall i, j | 0 <= i < j < |account.accepted| :: Before(account.accepted[i], account.accepted[j]))
  }

  lemma AcceptKeepsInv(hmac: Hmac, account: Account, row: Enrollment, code: string, now: int)
    requires Inv(hmac, account) && account.row.Some?
    requires row.secret == account.row.value.secret
    requires row.verifiedAt.Some? && row.lastUsedCounter.Some?
    requires LastUsed(row) >= 0 && LastUsed(row) > LastUsed(account.row.value)
    requires Counter(now) - 1 <= LastUsed(row) <= Counter(now)
    requires CodeMatches(hmac, row.secret, LastUsed(row), code)
    ensures Inv(hmac, Accept(account, row, code, now))
  {
    hide CodeMatches, Counter, Encode;
    var after := Accept(account, row, code, now);
    var n := |account.accepted|;
    forall i | 0 <= i < n
      ensures Genuine(hmac, after.issued, after.accepted[i]) && Past(after, after.accepted[i])
      ensures Before(after.accepted[i], after.accepted[n])
    {
      assert after.accepted[i] == account.accepted[i];
      assert Genuine(hmac, account.issued, account.accepted[i]) && Past(account, account.accepted[i]);
    }
  }

  lemma BeginKeepsInv(hmac: Hmac, account: Account, random: seq<Byte>)
    requires Inv(hmac, account)
    ensures Inv(hmac, Step(hmac, account, Begin(true, random)))
  {
    hide CodeMatches, Counter, Encode;
    var after := Step(hmac, account, Begin(true, random));
    forall i | 0 <= i < |account.accepted|
      ensures Genuine(hmac, after.issued, after.accepted[i]) && Past(after, after.accepted[i])
    {
      assert Genuine(hmac, account.issued, account.accepted[i]);
    }
  }

  /** What a successful verification or challenge leaves in the row. */
  lemma AcceptedRow(hmac: Hmac, row: Enrollment, code: string, now: int)
    requires LastUsed(row) >= -1 && Decode(row.secret).Ok?
    ensures VerifiedRow(hmac, Some(row), code, now).Ok? ==>
      row.verifiedAt.None? && NewCounter(hmac, row, VerifiedRow(hmac, Some(row), code, now).value, code, now)
    ensures ChallengedRow(hmac, Some(row), Some(code), now).Ok? ==>
      && NewCounter(hmac, row, ChallengedRow(hmac, Some(row), Some(code), now).value, code, now)
      && LastUsed(ChallengedRow(hmac, Some(row), Some(code), now).value) > LastUsed(row)
  {
    MatchesExactly(hmac, row.secret, code, now);
    hide CodeMatches, Counter, MatchingCounter, Decode;
  }

  predicate NewCounter(hmac: Hmac, row: Enrollment, after: Enrollment, code: string, now: int) {
    && after.secret == row.secret && after.verifiedAt.Some? && after.lastUsedCounter.Some?
    && LastUsed(after) >= 0
    && Counter(now) - 1 <= LastUsed(after) <= Counter(now)
    && CodeMatches(hmac, row.secret, LastUsed(after), code)
  }

  lemma StepKeepsInv(hmac: Hmac, account: Account, event: Event)
    requires Inv(hmac, account)
    ensures Inv(hmac, Step(hmac, account, event))
  {
    if event.Begin? {
      if event.permitted {
        BeginKeepsInv(hmac, account, event.random);
      }
    } else if account.row.Some? {
      hide CodeMatches, Counter, MatchingCounter, Decode, Encode;
      var row := account.row.value;
      RoundTrip(account.issued[|account.issued| - 1]);
      if event.Verify? {
        AcceptedRow(hmac, row, event.code, event.now);
        var after := VerifiedRow(hmac, account.row, event.code, event.now);
        if after.Ok? {
          AcceptKeepsInv(hmac, account, after.value, event.code, event.now);
        }
      } else if event.supplied.Some? {
        AcceptedRow(hmac, row, event.supplied.value, event.now);
        var after := ChallengedRow(hmac, account.row, event.supplied, event.now);
        if event.platformAdmin && after.Ok? {
          AcceptKeepsInv(hmac, account, after.value, event.supplied.value, event.now);
        }
      }
    }
  }

  lemma {:induction false} RunKeepsInv(hmac: Hmac, events: seq<Event>)
    ensures Inv(hmac, Run(hmac, events))
  {
    if events != [] {
      hide Step, Inv;
      RunKeepsInv(hmac, events[..|events| - 1]);
      StepKeepsInv(hmac, Run(hmac, events[..|events| - 1]), events[|events| - 1]);
    } else {
      assert NEW_ACCOUNT.row.None?;
    }
  }

  // ----- what follows for every run -----

  /** Within one enrolment the accepted counters strictly increase, whatever the clock does. */
  lemma AcceptedCountersIncrease(hmac: Hmac, events: seq<Event>, i: nat, j: nat)
    requires i < j < |Run(hmac, events).accepted|
    requires Run(hmac, events).accepted[i].enrollment == Run(hmac, events).accepted[j].enrollment
    ensures Run(hmac, events).accepted[i].counter < Run(hmac, events).accepted[j].counter
  {
    RunKeepsInv(hmac, events);
    assert Before(Run(hmac, events).accepted[i], Run(hmac, events).accepted[j]);
    hide Run;
  }

  /** The codes that are accepted are those which a device holding the secret drawn at the enrolment shows, by the
      standard, in the current or in the previous period of thirty seconds. */
  lemma AcceptedCodesAreGenuine(hmac: Hmac, events: seq<Event>, i: nat)
    requires i < |Run(hmac, events).accepted|
    ensures var account := Run(hmac, events); var a := account.accepted[i];
      && 0 <= a.enrollment < |account.issued|
      && a.counter * 30_000 <= a.now < (a.counter + 2) * 30_000
      && ShowsCode(hmac, account.issued[a.enrollment], a.counter, a.code)
  {
    RunKeepsInv(hmac, events);
    var account := Run(hmac, events);
    hide Run;
    assert Genuine(hmac, account.issued, account.accepted[i]);
    var a := account.accepted[i];
    RoundTrip(account.issued[a.enrollment]);
    hide Encode, Decode, CodeMatches, ShowsCode, Genuine;
    FitsExactly(hmac, a.secret, a.counter, a.code, a.now);
  }

  /** When no secret is drawn twice, no counter is accepted twice under the same secret. */
  lemma NothingIsReplayed(hmac: Hmac, events: seq<Event>, i: nat, j: nat)
    requires i < j < |Run(hmac, events).accepted|
    requires forall k, l | 0 <= k < l < |Run(hmac, events).issued| ::
      Run(hmac, events).issued[k] != Run(hmac, events).issued[l]
    ensures var accepted := Run(hmac, events).accepted;
      accepted[i].secret != accepted[j].secret || accepted[i].counter != accepted[j].counter
  {
    RunKeepsInv(hmac, events);
    var account := Run(hmac, events);
    hide Run;
    var a, b := account.accepted[i], account.accepted[j];
    assert Genuine(hmac, account.issued, a) && Genuine(hmac, account.issued, b);
    assert Before(a, b);
    RoundTrip(account.issued[a.enrollment]);
    RoundTrip(account.issued[b.enrollment]);
    hide Encode, Decode;
  }

  predicate InWindow(a: Acceptance, enrollment: int, from: int, to: int) {
    a.enrollment == enrollment && from <= a.now <= to
  }

  /** How many codes of an enrolment were accepted while the clock showed a time from `from` to `to`. */
  function Accepted(accepted: seq<Acceptance>, enrollment: int, from: int, to: int): nat {
    if accepted == [] then 0
    else
      var init, last := accepted[..|accepted| - 1], accepted[|accepted| - 1];
      Accepted(init, enrollment, from, to) + if InWindow(last, enrollment, from, to) then 1 else 0
  }

  lemma {:induction false} IncreasingCountersAreFew(accepted: seq<Acceptance>, enrollment: int, from: int, to: int,
      low: int, high: int)
    requires low <= high + 1
    requires forall i, j | 0 <= i < j < |accepted| :: Before(accepted[i], accepted[j])
    requires forall i | 0 <= i < |accepted| :: InWindow(accepted[i], enrollment, from, to) ==>
      low <= accepted[i].counter <= high
    ensures Accepted(accepted, enrollment, from, to) <= high - low + 1
  {
    if accepted != [] {
      var n := |accepted| - 1;
      var last := accepted[n];
      if InWindow(last, enrollment, from, to) {
        forall i | 0 <= i < n && InWindow(accepted[i], enrollment, from, to)
          ensures accepted[i].counter <= last.counter - 1
        {
          assert Before(accepted[i], accepted[n]);
        }
        IncreasingCountersAreFew(accepted[..n], enrollment, from, to, low, last.counter - 1);
      } else {
        IncreasingCountersAreFew(accepted[..n], enrollment, from, to, low, high);
      }
    }
  }

  lemma CounterMonotone(s: int, t: int)
    requires s <= t
    ensures Counter(s) <= Counter(t)
  {
  }

  /** In any time span an enrolment accepts at most one code per period that the span touches, and one more.
      The clock may jump back and forth. */
  lemma AcceptanceRateIsBounded(hmac: Hmac, events: seq<Event>, enrollment: int, from: int, to: int)
    requires from <= to
    ensures Accepted(Run(hmac, events).accepted, enrollment, from, to) <= Counter(to) - Counter(from) + 2
  {
    RunKeepsInv(hmac, events);
    var account := Run(hmac, events);
    hide Run;
    CounterMonotone(from, to);
    forall i | 0 <= i < |account.accepted| && InWindow(account.accepted[i], enrollment, from, to)
      ensures Counter(from) - 1 <= account.accepted[i].counter <= Counter(to)
    {
      assert Genuine(hmac, account.issued, account.accepted[i]);
      CounterMonotone(from, account.accepted[i].now);
      CounterMonotone(account.accepted[i].now, to);
    }
    hide Counter, Accepted;
    IncreasingCountersAreFew(account.accepted, enrollment, from, to, Counter(from) - 1, Counter(to));
  }
}
