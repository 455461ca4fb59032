/** The two scripts behind login protection: a fixed-window counter and a failure counter that sets a lock.
    Time is a whole-second clock; keys vanish when their time is over. */
module RateLimit {
  import opened Wrappers

  datatype Window = Window(count: nat, expiresAt: int)

  datatype Decision = Decision(allowed: bool, remaining: nat, retryAfter: nat)

  function Max(a: int, b: int): int {
    if a < b then b else a
  }

  function Min(a: int, b: int): int {
    if a < b then a else b
  }

  predicate Live(window: Option<Window>, now: int) {
    window.Some? && now < window.value.expiresAt
  }

  /** INCR, and EXPIRE when the key is new. */
  function Counted(window: Option<Window>, windowSeconds: nat, now: int): Window {
    if Live(window, now) then window.value.(count := window.value.count + 1) else Window(1, now + windowSeconds)
  }

  /** What `consume` answers after CONSUME_SCRIPT. */
  function Decide(counted: Window, max: nat, now: int): Decision {
    Decision(counted.count <= max, Max(0, max - counted.count), Max(1, counted.expiresAt - now))
  }

  /** The keys `:failures` and `:lock` of one subject. */
  datatype Lockout = Lockout(failures: Option<Window>, lockedUntil: Option<int>)

  predicate Locked(l: Lockout, now: int) {
    l.lockedUntil.Some? && now < l.lockedUntil.value
  }

  /** FAILURE_SCRIPT */
  function AfterFailure(l: Lockout, threshold: nat, windowSeconds: nat, lockSeconds: nat, now: int): Lockout {
    var counted := Counted(l.failures, windowSeconds, now);
    if counted.count >= threshold then Lockout(None, Some(now + lockSeconds)) else l.(failures := Some(counted))
  }

  /** The failures of a live window and this one: below the threshold they are kept until the end of the window, which
      the first of them opened; at the threshold they are forgotten and the key is locked for the time of a lock. */
  predicate FailureCounts(before: Lockout, after: Lockout, threshold: nat, windowSeconds: nat, lockSeconds: nat,
      now: int)
  {
    var live := before.failures.Some? && now < before.failures.value.expiresAt;
    var earlier := if live then before.failures.value.count else 0;
    if earlier + 1 >= threshold then after.failures == None && after.lockedUntil == Some(now + lockSeconds)
    else
      && after.lockedUntil == before.lockedUntil
      && after.failures.Some? && after.failures.value.count == earlier + 1
      && after.failures.value.expiresAt == if live then before.failures.value.expiresAt else now + windowSeconds
  }

  function WindowOf(windows: map<string, Window>, key: string): Option<Window> {
    if key in windows then Some(windows[key]) else None
  }

  function LockoutOf(lockouts: map<string, Lockout>, key: string): Lockout {
    if key in lockouts then lockouts[key] else Lockout(None, None)
  }

  /** `createRedisRateLimitStore`: every method is one indivisible command of the server. */
  class RateLimitStore {
    var windows: map<string, Window>
    var lockouts: map<string, Lockout>

    constructor ()
      ensures windows == map[] && lockouts == map[]
    {
      windows, lockouts := map[], map[];
    }

    method Consume(key: string, max: nat, windowSeconds: nat, now: int) returns (decision: Decision)
      modifies this`windows
      ensures windows == old(windows)[key := Counted(WindowOf(old(windows), key), windowSeconds, now)]
      ensures decision == Decide(windows[key], max, now)
    {
      var counted := Window(1, now + windowSeconds);
      if key in windows && now < windows[key].expiresAt {
        counted := Window(windows[key].count + 1, windows[key].expiresAt);
      }
      windows := windows[key := counted];
      var ttl := counted.expiresAt - now;
      decision := Decision(counted.count <= max, Max(0, max - counted.count), Max(1, ttl));
    }

    method LockRetryAfter(key: string, now: int) returns (seconds: nat)
      ensures seconds > 0 <==> Locked(LockoutOf(lockouts, key), now)
      ensures seconds > 0 ==> LockoutOf(lockouts, key).lockedUntil == Some(now + seconds)
    {
      seconds := 0;
      if key in lockouts && lockouts[key].lockedUntil.Some? {
        seconds := Max(0, lockouts[key].lockedUntil.value - now);
      }
    }

    /** Returns how long the key is locked now, or 0. */
    method RecordFailure(key: string, threshold: nat, windowSeconds: nat, lockSeconds: nat, now: int)
      returns (locked: nat)
      modifies this`lockouts
      ensures lockouts ==
        old(lockouts)[key := AfterFailure(LockoutOf(old(lockouts), key), threshold, windowSeconds, lockSeconds, now)]
      ensures locked == if lockouts[key].failures.None? then lockSeconds else 0
      ensures FailureCounts(LockoutOf(old(lockouts), key), lockouts[key], threshold, windowSeconds, lockSeconds, now)
    {
      var l := LockoutOf(lockouts, key);
      var counted := Window(1, now + windowSeconds);
      if l.failures.Some? && now < l.failures.value.expiresAt {
        counted := Window(l.failures.value.count + 1, l.failures.value.expiresAt);
      }
      if counted.count >= threshold {
        lockouts := lockouts[key := Lockout(None, Some(now + lockSeconds))];
        return lockSeconds;
      }
      lockouts := lockouts[key := Lockout(Some(counted), l.lockedUntil)];
      locked := 0;
    }

    method ClearFailures(key: string)
      modifies this`lockouts
      ensures lockouts == old(lockouts) - {key}
    {
      lockouts := lockouts - {key};
    }
  }

  // ----- the protection of a request -----

  datatype LockoutRule = LockoutRule(seconds: nat, threshold: nat, windowSeconds: nat)

  datatype Rule = Rule(lockout: Option<LockoutRule>, max: nat, windowSeconds: nat)

  /** The rule that applies to a request, and the keyed hashes of its address and of its subject. */
  datatype Client = Client(ruleId: string, ipHash: string, subjectHash: string) {
    function Prefix(): string {
      "ntauth:rate-limit:" + ruleId
    }

    function IpKey(): string {
      Prefix() + (":ip:" + ipHash)
    }

    function SubjectKey(): string {
      Prefix() + (":subject:" + subjectHash)
    }

    function CompositeKey(): string {
      Prefix() + (":lock:" + (subjectHash + (":" + ipHash)))
    }

    lemma KeysDiffer()
      ensures IpKey() != SubjectKey()
    {
      var n := |Prefix()| + 1;
      assert IpKey()[n] == 'i' && SubjectKey()[n] == 's';
    }
  }

  datatype Problem = LockedOut(retryAfter: nat) | RateLimited(retryAfter: nat) | Unavailable

  datatype Scope = Scope(compositeKey: string, lockout: Option<LockoutRule>)

  type RequestId = nat

  /** What requests share: the store and the remembered requests. */
  datatype Shared = Shared(windows: map<string, Window>, lockouts: map<string, Lockout>, scopes: map<RequestId, Scope>)

  /** What the environment contributes to one `check`: what other requests do before each command, the clock of the
      store at the command, and how the command ends. */
  datatype Course = Course(
    beforeLock: Shared -> Shared, lockAt: int, lock: Delivery,
    beforeIp: Shared -> Shared, ipAt: int, ip: Delivery,
    beforeSubject: Shared -> Shared, subjectAt: int, subject: Delivery)

  function Remembered(s: Shared, id: RequestId, rule: Rule, client: Client): Shared {
    s.(scopes := s.scopes[id := Scope(client.CompositeKey(), rule.lockout)])
  }

  function Forgotten(s: Shared, id: RequestId): Shared {
    s.(scopes := s.scopes - {id})
  }

  /** CONSUME_SCRIPT may have counted although its answer is lost. */
  function Charged(s: Shared, key: string, counted: Window, delivery: Delivery): Shared {
    if delivery.Fails? then s else s.(windows := s.windows[key := counted])
  }

  /** Where the lock is looked up. */
  function AtLock(before: Shared, id: RequestId, rule: Rule, client: Client, course: Course): Shared {
    var s := Remembered(before, id, rule, client);
    if rule.lockout.Some? then course.beforeLock(s) else s
  }

  function IpWindow(s: Shared, rule: Rule, client: Client, course: Course): Window {
    Counted(WindowOf(s.windows, client.IpKey()), rule.windowSeconds, course.ipAt)
  }

  function SubjectWindow(s: Shared, rule: Rule, client: Client, course: Course): Window {
    Counted(WindowOf(s.windows, client.SubjectKey()), rule.windowSeconds, course.subjectAt)
  }

  /** Where the counter of the subject is charged. */
  function AtSubject(s: Shared, rule: Rule, client: Client, course: Course): Shared {
    var t := course.beforeIp(s);
    course.beforeSubject(Charged(t, client.IpKey(), IpWindow(t, rule, client, course), course.ip))
  }

  /** What the two counters decide; the subject may be charged three times as often as the address. */
  function Judged(ip: Window, subject: Window, rule: Rule, course: Course): Option<Problem> {
    if !course.ip.Succeeds? || !course.subject.Succeeds? then Some(Unavailable)
    else if ip.count <= rule.max && subject.count <= rule.max * 3 then None
    else Some(RateLimited(
      Max(Decide(ip, rule.max, course.ipAt).retryAfter, Decide(subject, rule.max * 3, course.subjectAt).retryAfter)))
  }

  /** One `check`, from the first look at the request to the last command. A locked key charges no counter; otherwise
      both are charged, also when one of them refuses. */
  predicate Checked(before: Shared, after: Shared, problem: Option<Problem>, id: RequestId, rule: Rule, client: Client,
      course: Course)
  {
    var asked := AtLock(before, id, rule, client, course);
    var lockout := LockoutOf(asked.lockouts, client.CompositeKey());
    if rule.lockout.Some? && !course.lock.Succeeds? then
      problem == Some(Unavailable) && after == Forgotten(asked, id)
    else if rule.lockout.Some? && Locked(lockout, course.lockAt) then
      problem == Some(LockedOut(lockout.lockedUntil.value - course.lockAt)) && after == Forgotten(asked, id)
    else
      var last := AtSubject(asked, rule, client, course);
      var subject := SubjectWindow(last, rule, client, course);
      var charged := Charged(last, client.SubjectKey(), subject, course.subject);
      && problem == Judged(IpWindow(course.beforeIp(asked), rule, client, course), subject, rule, course)
      && after == if problem.Some? then Forgotten(charged, id) else charged
  }

  /** `createRequestRateLimiter` for a request that a rule applies to. */
  class RequestRateLimiter {
    const store: RateLimitStore
    var scopes: map<RequestId, Scope>

    constructor (store: RateLimitStore)
      ensures this.store == store && scopes == map[]
    {
      this.store := store;
      scopes := map[];
    }

    function Contents(): Shared
      reads this, store
    {
      Shared(store.windows, store.lockouts, scopes)
    }

    /** Other requests. */
    method Meanwhile(others: Shared -> Shared)
      modifies this, store
      ensures Contents() == others(old(Contents()))
    {
      var s := others(Contents());
      store.windows, store.lockouts, scopes := s.windows, s.lockouts, s.scopes;
    }

    /** `check` until its first command: the request is remembered. */
    method StartCheck(id: RequestId, rule: Rule, client: Client)
      modifies this
      ensures scopes == old(scopes)[id := Scope(client.CompositeKey(), rule.lockout)]
    {
      scopes := scopes[id := Scope(client.CompositeKey(), rule.lockout)];
    }

    /** When the time until the end of the lock has arrived, or the command has thrown. */
    method ReceiveLock(id: RequestId, lockedFor: Option<nat>) returns (problem: Option<Problem>)
      modifies this
      ensures problem == match lockedFor
        case None => Some(Unavailable)
        case Some(seconds) => if seconds > 0 then Some(LockedOut(seconds)) else None
      ensures scopes == if problem.Some? then old(scopes) - {id} else old(scopes)
    {
      problem := None;
      if lockedFor.None? {
        problem := Some(Unavailable);
      } else if lockedFor.value > 0 {
        problem := Some(LockedOut(lockedFor.value));
      }
      if problem.Some? {
        scopes := scopes - {id};
      }
    }

    /** When both counters have answered, or one of them has thrown. */
    method ReceiveDecisions(id: RequestId, ip: Option<Decision>, subject: Option<Decision>)
      returns (problem: Option<Problem>)
      modifies this
      ensures problem.None? <==> ip.Some? && subject.Some? && ip.value.allowed && subject.value.allowed
      ensures problem == Some(Unavailable) <==> ip.None? || subject.None?
      ensures problem.Some? && problem.value.RateLimited? ==>
        problem.value.retryAfter == Max(ip.value.retryAfter, subject.value.retryAfter)
      ensures problem.Some? ==> !problem.value.LockedOut?
      ensures scopes == if problem.Some? then old(scopes) - {id} else old(scopes)
    {
      problem := None;
      if ip.None? || subject.None? {
        problem := Some(Unavailable);
      } else if !ip.value.allowed || !subject.value.allowed {
        problem := Some(RateLimited(Max(ip.value.retryAfter, subject.value.retryAfter)));
      }
      if problem.Some? {
        scopes := scopes - {id};
      }
    }

    /** The two commands that `check` sends together. */
    method ConsumeBoth(rule: Rule, client: Client, course: Course)
      returns (ip: Option<Decision>, subject: Option<Decision>)
      modifies this, store
      ensures var last := AtSubject(old(Contents()), rule, client, course);
        && Contents() == Charged(last, client.SubjectKey(), SubjectWindow(last, rule, client, course), course.subject)
        && ip == (if course.ip.Succeeds?
             then Some(Decide(IpWindow(course.beforeIp(old(Contents())), rule, client, course), rule.max, course.ipAt))
             else None)
        && subject == (if course.subject.Succeeds?
             then Some(Decide(SubjectWindow(last, rule, client, course), rule.max * 3, course.subjectAt))
             else None)
    {
      hide Counted, Decide, client.IpKey, client.SubjectKey;
      ip, subject := None, None;
      Meanwhile(course.beforeIp);
      if !course.ip.Fails? {
        var decision := store.Consume(client.IpKey(), rule.max, rule.windowSeconds, course.ipAt);
        ip := if course.ip.Succeeds? then Some(decision) else None;
      }
      Meanwhile(course.beforeSubject);
      if !course.subject.Fails? {
        var decision := store.Consume(client.SubjectKey(), rule.max * 3, rule.windowSeconds, course.subjectAt);
        subject := if course.subject.Succeeds? then Some(decision) else None;
      }
    }

    method Check(id: RequestId, rule: Rule, client: Client, course: Course) returns (problem: Option<Problem>)
      modifies this, store
      ensures Checked(old(Contents()), Contents(), problem, id, rule, client, course)
    {
      hide Max, client.IpKey, client.SubjectKey, client.CompositeKey, IpWindow, SubjectWindow, AtSubject, Charged,
        WindowOf;
      StartCheck(id, rule, client);
      var lockedFor: Option<nat> := Some(0);
      if rule.lockout.Some? {
        Meanwhile(course.beforeLock);
        var seconds := store.LockRetryAfter(client.CompositeKey(), course.lockAt);
        lockedFor := if course.lock.Succeeds? then Some(seconds) else None;
      }
      problem := ReceiveLock(id, lockedFor);
      if problem.Some? {
        return;
      }
      var ipDecision, subjectDecision := ConsumeBoth(rule, client, course);
      problem := ReceiveDecisions(id, ipDecision, subjectDecision);
    }

    /** A request that `check` refused leaves no trace here; a command that throws is ignored. */
    method Observe(id: RequestId, status: nat, now: int, delivery: Delivery)
      modifies store
      ensures store.windows == old(store.windows)
      ensures store.lockouts ==
        if id !in scopes || scopes[id].lockout.None? || delivery.Fails? then old(store.lockouts)
        else
          var scope := scopes[id];
          var rule := scope.lockout.value;
          if status < 400 then old(store.lockouts) - {scope.compositeKey}
          else
            old(store.lockouts)[scope.compositeKey :=
              AfterFailure(LockoutOf(old(store.lockouts), scope.compositeKey), rule.threshold, rule.windowSeconds,
                rule.seconds, now)]
    {
      if id !in scopes || scopes[id].lockout.None? || delivery.Fails? {
        return;
      }
      var scope := scopes[id];
      if status < 400 {
        store.ClearFailures(scope.compositeKey);
        return;
      }
      var rule := scope.lockout.value;
      var _ := store.RecordFailure(scope.compositeKey, rule.threshold, rule.windowSeconds, rule.seconds, now);
    }
  }

  // ----- keys -----

  /** A keyed hash in base64url: 43 characters, none of them a colon. */
  predicate IsHash(text: string) {
    |text| == 43 && ':' !in text
  }

  predicate Hashed(client: Client) {
    IsHash(client.ipHash) && IsHash(client.subjectHash)
  }

  lemma SameRule(a: string, b: string, x: string, y: string)
    requires ':' !in a && ':' !in b && x != "" && y != "" && x[0] == ':' && y[0] == ':'
    requires a + x == b + y
    ensures a == b && x == y
  {
    var s, t := a + x, b + y;
    assert s[|a|] == ':' && t[|b|] == ':';
    assert s[..|a|] == a && t[..|b|] == b && s[|a|..] == x && t[|b|..] == y;
  }

  lemma PrefixedKeys(a: Client, b: Client, x: string, y: string)
    requires ':' !in a.ruleId && ':' !in b.ruleId && x != "" && y != "" && x[0] == ':' && y[0] == ':'
    requires a.Prefix() + x == b.Prefix() + y
    ensures a.ruleId == b.ruleId && x == y
  {
    var p := "ntauth:rate-limit:";
    assert a.Prefix() + x == p + (a.ruleId + x) && b.Prefix() + y == p + (b.ruleId + y);
    assert (p + (a.ruleId + x))[|p|..] == a.ruleId + x && (p + (b.ruleId + y))[|p|..] == b.ruleId + y;
    SameRule(a.ruleId, b.ruleId, x, y);
  }

  /** Addresses share their counter exactly with themselves, subjects likewise, and a lock is for one subject at one
      address; rules never share any of them, and no counter is a lock. */
  lemma KeysAreSeparate(a: Client, b: Client)
    requires Hashed(a) && Hashed(b) && ':' !in a.ruleId && ':' !in b.ruleId
    ensures a.IpKey() == b.IpKey() <==> a.ruleId == b.ruleId && a.ipHash == b.ipHash
    ensures a.SubjectKey() == b.SubjectKey() <==> a.ruleId == b.ruleId && a.subjectHash == b.subjectHash
    ensures a.CompositeKey() == b.CompositeKey() <==> a == b
    ensures a.IpKey() != b.SubjectKey() && a.IpKey() != b.CompositeKey() && a.SubjectKey() != b.CompositeKey()
  {
    hide a.Prefix, b.Prefix;
    SameTail(a, b, ":ip:", ":ip:", a.ipHash, b.ipHash);
    SameTail(a, b, ":subject:", ":subject:", a.subjectHash, b.subjectHash);
    var x, y := a.subjectHash + (":" + a.ipHash), b.subjectHash + (":" + b.ipHash);
    SameTail(a, b, ":lock:", ":lock:", x, y);
    if x == y {
      assert x[..43] == a.subjectHash && y[..43] == b.subjectHash && x[44..] == a.ipHash && y[44..] == b.ipHash;
    }
    SameTail(a, b, ":ip:", ":subject:", a.ipHash, b.subjectHash);
    SameTail(a, b, ":ip:", ":lock:", a.ipHash, y);
    SameTail(a, b, ":subject:", ":lock:", a.subjectHash, y);
  }

  lemma SameTail(a: Client, b: Client, kind: string, other: string, x: string, y: string)
    requires ':' !in a.ruleId && ':' !in b.ruleId && |kind| > 1 && |other| > 1 && kind[0] == other[0] == ':'
    requires kind == other || kind[1] != other[1]
    ensures a.Prefix() + (kind + x) == b.Prefix() + (other + y) <==> a.ruleId == b.ruleId && kind == other && x == y
  {
    hide a.Prefix, b.Prefix;
    if a.Prefix() + (kind + x) == b.Prefix() + (other + y) {
      PrefixedKeys(a, b, kind + x, other + y);
      assert (kind + x)[1] == kind[1] && (other + y)[1] == other[1];
      assert (kind + x)[|kind|..] == x && (other + y)[|other|..] == y;
    }
    if a.ruleId == b.ruleId {
      SamePrefix(a, b);
    }
  }

  lemma SamePrefix(a: Client, b: Client)
    requires a.ruleId == b.ruleId
    ensures a.Prefix() == b.Prefix()
  {
  }

  // ----- checks -----

  /** Other requests remember and forget themselves only. */
  ghost predicate KeepsScope(others: Shared -> Shared, id: RequestId) {
    forall s {:trigger others(s)} ::
      && (id in others(s).scopes <==> id in s.scopes)
      && (id in s.scopes ==> others(s).scopes[id] == s.scopes[id])
  }

  ghost predicate OthersKeepScope(course: Course, id: RequestId) {
    KeepsScope(course.beforeLock, id) && KeepsScope(course.beforeIp, id) && KeepsScope(course.beforeSubject, id)
  }

  /** Under any interleaving a request is remembered exactly while no problem was found. */
  lemma PassedAreRemembered(before: Shared, after: Shared, problem: Option<Problem>, id: RequestId, rule: Rule,
      client: Client, course: Course)
    requires Checked(before, after, problem, id, rule, client, course) && OthersKeepScope(course, id)
    ensures id in after.scopes <==> problem.None?
    ensures problem.None? ==> after.scopes[id] == Scope(client.CompositeKey(), rule.lockout)
  {
    hide Counted, Judged, WindowOf, LockoutOf, Locked, IpWindow, SubjectWindow;
  }

  /** It passes exactly if the key was not locked when it was looked up and each counter, when it was charged, was
      within its maximum. */
  lemma PassedExactly(before: Shared, after: Shared, problem: Option<Problem>, id: RequestId, rule: Rule,
      client: Client, course: Course)
    requires Checked(before, after, problem, id, rule, client, course)
    ensures var asked := AtLock(before, id, rule, client, course);
      problem.None? <==>
        && (rule.lockout.Some? ==>
              course.lock.Succeeds? && !Locked(LockoutOf(asked.lockouts, client.CompositeKey()), course.lockAt))
        && course.ip.Succeeds?
        && Counted(WindowOf(course.beforeIp(asked).windows, client.IpKey()), rule.windowSeconds, course.ipAt).count
             <= rule.max
        && course.subject.Succeeds?
        && Counted(WindowOf(AtSubject(asked, rule, client, course).windows, client.SubjectKey()), rule.windowSeconds,
             course.subjectAt).count <= 3 * rule.max
  {
    hide Counted, Max, AtLock, AtSubject, LockoutOf, WindowOf, Locked, Forgotten, Charged;
  }

  ghost predicate Undisturbed(course: Course) {
    && (forall s :: course.beforeLock(s) == s)
    && (forall s :: course.beforeIp(s) == s)
    && (forall s :: course.beforeSubject(s) == s)
  }

  /** Alone, a check that finds no lock charges both counters from where they stood, and touches no lockout. */
  lemma UndisturbedCheck(before: Shared, after: Shared, problem: Option<Problem>, id: RequestId, rule: Rule,
      client: Client, course: Course)
    requires Checked(before, after, problem, id, rule, client, course) && Undisturbed(course)
    ensures after.lockouts == before.lockouts
    ensures after.scopes == if problem.None? then Remembered(before, id, rule, client).scopes else before.scopes - {id}
    ensures problem.Some? && problem.value.LockedOut? ==> after.windows == before.windows
    ensures problem.None? ==>
      after.windows == before.windows
        [client.IpKey() := Counted(WindowOf(before.windows, client.IpKey()), rule.windowSeconds, course.ipAt)]
        [client.SubjectKey() :=
          Counted(WindowOf(before.windows, client.SubjectKey()), rule.windowSeconds, course.subjectAt)]
  {
    client.KeysDiffer();
    hide Counted, Max, client.IpKey, client.SubjectKey, client.CompositeKey;
  }

  // ----- consume over time -----

  predicate Ordered(times: seq<int>) {
    forall i, j | 0 <= i < j < |times| :: times[i] <= times[j]
  }

  /** The counter after the calls at these times. */
  function Counter(times: seq<int>, windowSeconds: nat): Option<Window> {
    if times == [] then None
    else
      var n := |times| - 1;
      Some(Counted(Counter(times[..n], windowSeconds), windowSeconds, times[n]))
  }

  /** The decision on the call at this place. */
  predicate Allowed(times: seq<int>, i: nat, max: nat, windowSeconds: nat)
    requires i < |times|
  {
    Decide(Counter(times[..i + 1], windowSeconds).value, max, times[i]).allowed
  }

  /** The call that opened the window in which this call falls. */
  function Opener(times: seq<int>, i: nat, windowSeconds: nat): (o: nat)
    requires i < |times|
    ensures o <= i
  {
    if i == 0 then 0
    else
      var o := Opener(times, i - 1, windowSeconds);
      if times[i] < times[o] + windowSeconds then o else i
  }

  lemma {:induction false} CounterCountsWindow(times: seq<int>, i: nat, windowSeconds: nat)
    requires i < |times|
    ensures var o := Opener(times, i, windowSeconds);
      Counter(times[..i + 1], windowSeconds) == Some(Window(i - o + 1, times[o] + windowSeconds))
  {
    assert times[..i + 1][..i] == times[..i];
    if i > 0 {
      CounterCountsWindow(times, i - 1, windowSeconds);
    }
  }

  /** In every fixed window exactly the first `max` calls are admitted; later ones are refused and do not move the
      end of the window, which its first call has set. */
  lemma FixedWindowExactly(times: seq<int>, i: nat, max: nat, windowSeconds: nat)
    requires i < |times|
    ensures var o := Opener(times, i, windowSeconds);
      && (Allowed(times, i, max, windowSeconds) <==> i - o < max)
      && Counter(times[..i + 1], windowSeconds).value.expiresAt == times[o] + windowSeconds
  {
    CounterCountsWindow(times, i, windowSeconds);
  }

  lemma {:induction false} OpenersAreApart(times: seq<int>, i: nat, j: nat, windowSeconds: nat)
    requires i <= j < |times| && Ordered(times) && windowSeconds > 0
    ensures var o, p := Opener(times, i, windowSeconds), Opener(times, j, windowSeconds);
      && o <= p && times[i] < times[o] + windowSeconds
      && (o != p ==> i < p && times[p] >= times[o] + windowSeconds)
  {
    if i < j {
      OpenersAreApart(times, i, j - 1, windowSeconds);
    } else if i > 0 {
      OpenersAreApart(times, i - 1, i - 1, windowSeconds);
    }
  }

  /** One more call, so many seconds after the last one. */
  function CallAgain(times: seq<int>, wait: nat): seq<int>
    requires times != []
  {
    times + [times[|times| - 1] + wait]
  }

  /** How long the answer to the last call tells its caller to wait. */
  function Told(times: seq<int>, max: nat, windowSeconds: nat): nat
    requires times != []
  {
    Decide(Counter(times, windowSeconds).value, max, times[|times| - 1]).retryAfter
  }

  lemma ToldUntilWindowEnds(times: seq<int>, max: nat, windowSeconds: nat)
    requires times != [] && Ordered(times) && windowSeconds > 0
    ensures var n := |times| - 1;
      Told(times, max, windowSeconds) == times[Opener(times, n, windowSeconds)] + windowSeconds - times[n] > 0
  {
    var n := |times| - 1;
    assert times[..n + 1] == times;
    CounterCountsWindow(times, n, windowSeconds);
    OpenersAreApart(times, n, n, windowSeconds);
    hide Counter, Opener;
  }

  lemma AllowedAgain(times: seq<int>, max: nat, windowSeconds: nat, wait: nat)
    requires times != []
    ensures var n := |times| - 1;
      var o := Opener(times, n, windowSeconds);
      Allowed(CallAgain(times, wait), n + 1, max, windowSeconds) ==
        if times[n] + wait < times[o] + windowSeconds then n + 1 - o < max else 0 < max
  {
    hide Allowed, Opener;
    var n, later := |times| - 1, CallAgain(times, wait);
    FixedWindowExactly(later, n + 1, max, windowSeconds);
    SamePrefixSameOpener(times, later, n, windowSeconds);
    NextOpener(later, n + 1, windowSeconds);
  }

  /** A refused caller is told when to come back: not earlier, but then, if nobody else calls, it is admitted. */
  lemma RetryAfterIsExact(times: seq<int>, max: nat, windowSeconds: nat, wait: nat)
    requires times != [] && Ordered(times) && max > 0 && windowSeconds > 0
    requires !Allowed(times, |times| - 1, max, windowSeconds)
    ensures Told(times, max, windowSeconds) > 0
    ensures Allowed(CallAgain(times, wait), |times|, max, windowSeconds) <==> wait >= Told(times, max, windowSeconds)
  {
    hide Allowed, Opener, Told, CallAgain, Ordered;
    FixedWindowExactly(times, |times| - 1, max, windowSeconds);
    ToldUntilWindowEnds(times, max, windowSeconds);
    AllowedAgain(times, max, windowSeconds, wait);
  }

  lemma NextOpener(times: seq<int>, i: nat, windowSeconds: nat)
    requires 0 < i < |times|
    ensures var o := Opener(times, i - 1, windowSeconds);
      Opener(times, i, windowSeconds) == if times[i] < times[o] + windowSeconds then o else i
  {
  }

  lemma {:induction false} SamePrefixSameOpener(times: seq<int>, later: seq<int>, i: nat, windowSeconds: nat)
    requires i < |times| && times <= later
    ensures Opener(later, i, windowSeconds) == Opener(times, i, windowSeconds)
  {
    if i > 0 {
      SamePrefixSameOpener(times, later, i - 1, windowSeconds);
    }
  }

  /** And an admitted one how many more calls of this window will be admitted. */
  lemma RemainingIsExact(times: seq<int>, i: nat, j: nat, max: nat, windowSeconds: nat)
    requires i < j < |times| && Opener(times, i, windowSeconds) == Opener(times, j, windowSeconds)
    requires Allowed(times, i, max, windowSeconds)
    ensures Allowed(times, j, max, windowSeconds)
      <==> j - i <= Decide(Counter(times[..i + 1], windowSeconds).value, max, times[i]).remaining
  {
    FixedWindowExactly(times, j, max, windowSeconds);
    FixedWindowExactly(times, i, max, windowSeconds);
    CounterCountsWindow(times, i, windowSeconds);
    hide Allowed, Counter, Opener;
  }

  /** How many of the first `n` calls were admitted at times from `from` until before `to`. */
  function Admitted(times: seq<int>, n: nat, max: nat, windowSeconds: nat, from: int, to: int): nat
    requires n <= |times|
  {
    if n == 0 then 0
    else
      Admitted(times, n - 1, max, windowSeconds, from, to)
      + if from <= times[n - 1] < to && Allowed(times, n - 1, max, windowSeconds) then 1 else 0
  }

  /** Everything that is known about the calls in an interval as long as a window. */
  predicate IntervalBound(times: seq<int>, n: nat, max: nat, windowSeconds: nat, from: int)
    requires n <= |times|
  {
    var admitted := Admitted(times, n, max, windowSeconds, from, from + windowSeconds);
    if n == 0 || times[n - 1] < from then admitted == 0
    else if times[n - 1] >= from + windowSeconds then admitted <= 2 * max - 1
    else
      var o := Opener(times, n - 1, windowSeconds);
      if times[o] < from then admitted <= Min(max, n - o) - 1 else admitted <= max - 1 + Min(max, n - o)
  }

  lemma {:induction false} IntervalBoundHolds(times: seq<int>, n: nat, max: nat, windowSeconds: nat, from: int)
    requires n <= |times| && Ordered(times) && windowSeconds > 0 && max > 0
    ensures IntervalBound(times, n, max, windowSeconds, from)
  {
    if n > 0 {
      IntervalBoundHolds(times, n - 1, max, windowSeconds, from);
      FixedWindowExactly(times, n - 1, max, windowSeconds);
      hide Allowed;
      assert n > 1 ==> times[n - 2] <= times[n - 1];
    }
  }

  /** In any half-open interval as long as a window fewer than `2 * max` calls are admitted. */
  lemma FewerThanTwiceMaxInAnyInterval(times: seq<int>, max: nat, windowSeconds: nat, from: int)
    requires Ordered(times) && windowSeconds > 0
    ensures max > 0 ==> Admitted(times, |times|, max, windowSeconds, from, from + windowSeconds) <= 2 * max - 1
    ensures max == 0 ==> Admitted(times, |times|, max, windowSeconds, from, from + windowSeconds) == 0
  {
    if max > 0 {
      IntervalBoundHolds(times, |times|, max, windowSeconds, from);
    } else {
      NothingAdmitted(times, |times|, windowSeconds, from, from + windowSeconds);
    }
  }

  lemma {:induction false} NothingAdmitted(times: seq<int>, n: nat, windowSeconds: nat, from: int, to: int)
    requires n <= |times|
    ensures Admitted(times, n, 0, windowSeconds, from, to) == 0
  {
    if n > 0 {
      NothingAdmitted(times, n - 1, windowSeconds, from, to);
      FixedWindowExactly(times, n - 1, 0, windowSeconds);
    }
  }

  /** One call opens a window, others use it up at its end, and as many as are allowed follow in the next one. */
  function Burst(max: nat, windowSeconds: nat): seq<int> {
    seq(2 * max, i => if i == 0 then 0 else if i < max then windowSeconds - 1 else windowSeconds)
  }

  lemma {:induction false} OpenerOfBurst(max: nat, windowSeconds: nat, i: nat)
    requires i < 2 * max && windowSeconds >= 2
    ensures Opener(Burst(max, windowSeconds), i, windowSeconds) == if i < max then 0 else max
  {
    if i > 0 {
      OpenerOfBurst(max, windowSeconds, i - 1);
    }
  }

  lemma {:induction false} BurstIsAdmitted(max: nat, windowSeconds: nat, n: nat)
    requires 0 < n <= 2 * max && windowSeconds >= 2
    ensures Admitted(Burst(max, windowSeconds), n, max, windowSeconds, 1, 1 + windowSeconds) == n - 1
  {
    var times := Burst(max, windowSeconds);
    OpenerOfBurst(max, windowSeconds, n - 1);
    FixedWindowExactly(times, n - 1, max, windowSeconds);
    hide Allowed, Opener;
    if n > 1 {
      BurstIsAdmitted(max, windowSeconds, n - 1);
    } else {
      assert Admitted(times, 0, max, windowSeconds, 1, 1 + windowSeconds) == 0;
    }
  }

  /** The bound is reached for every maximum and every window of at least two seconds. */
  lemma BoundIsReached(max: nat, windowSeconds: nat)
    requires max > 0 && windowSeconds >= 2
    ensures var times := Burst(max, windowSeconds);
      Ordered(times) && Admitted(times, |times|, max, windowSeconds, 1, 1 + windowSeconds) == 2 * max - 1
  {
    BurstIsAdmitted(max, windowSeconds, 2 * max);
  }

  // ----- the lockout over time -----

  /** What happens on one key. `Pass` is a request that finds no lock, `Fail` or `Succeed` the response of one of the
      requests in flight, `Leave` the end of one that a counter refused or whose response was not observed. */
  datatype Event = Pass(at: int) | Refuse(at: int) | Fail(at: int) | Succeed(at: int) | Leave(at: int)

  datatype State = State(lockout: Lockout, inFlight: nat, now: int)

  /** The login rule counts failures for as long as it locks. */
  datatype Login = Login(threshold: nat, seconds: nat, concurrency: nat)

  predicate Enabled(s: State, e: Event, login: Login) {
    && s.now <= e.at
    && match e
       case Pass(at) => !Locked(s.lockout, at) && s.inFlight < login.concurrency
       case Refuse(at) => true
       case Fail(_) => s.inFlight > 0
       case Succeed(_) => s.inFlight > 0
       case Leave(_) => s.inFlight > 0
  }

  function Step(s: State, e: Event, login: Login): State
    requires Enabled(s, e, login)
  {
    match e
    case Pass(at) => State(s.lockout, s.inFlight + 1, at)
    case Refuse(at) => s.(now := at)
    case Fail(at) =>
      State(AfterFailure(s.lockout, login.threshold, login.seconds, login.seconds, at), s.inFlight - 1, at)
    case Succeed(at) => State(Lockout(None, None), s.inFlight - 1, at)
    case Leave(at) => State(s.lockout, s.inFlight - 1, at)
  }

  ghost predicate IsRun(states: seq<State>, events: seq<Event>, login: Login) {
    && |states| == |events| + 1
    && forall i | 0 <= i < |events| ::
      Enabled(states[i], events[i], login) && states[i + 1] == Step(states[i], events[i], login)
  }

  /** What every state satisfies: the failure counter is below the threshold, and no key outlives its time. */
  predicate Plausible(s: State, login: Login) {
    && login.threshold > 0 && login.seconds > 0 && login.concurrency > 0
    && s.inFlight <= login.concurrency
    && (s.lockout.failures.Some? ==>
          0 < s.lockout.failures.value.count < login.threshold
            && s.lockout.failures.value.expiresAt <= s.now + login.seconds)
    && (s.lockout.lockedUntil.Some? ==> s.lockout.lockedUntil.value <= s.now + login.seconds)
  }

  lemma StepStaysPlausible(s: State, e: Event, login: Login)
    requires Plausible(s, login) && Enabled(s, e, login)
    ensures Plausible(Step(s, e, login), login)
  {
  }

  function InInterval(e: Event, from: int, to: int): nat {
    if e.Fail? && from <= e.at < to then 1 else 0
  }

  /** Failures recorded at times from `from` until before `to`. */
  function Recorded(events: seq<Event>, from: int, to: int): nat {
    if events == [] then 0
    else Recorded(events[..|events| - 1], from, to) + InInterval(events[|events| - 1], from, to)
  }

  /** The lock was set in the interval that starts at `from`. */
  predicate LockSetSince(s: State, login: Login, from: int) {
    s.lockout.lockedUntil.Some? && s.lockout.lockedUntil.value - login.seconds >= from
  }

  /** The failures left of a window that began earlier, those of a window that sets the lock, and those of the
      requests that were in flight beside the one that set it. */
  function Bound(login: Login): int {
    Max(0, login.threshold - 2) + login.threshold + login.concurrency - 1
  }

  /** What is known about the failures recorded so far in an interval as long as the lock. */
  predicate FailureBound(s: State, recorded: nat, login: Login, from: int) {
    var t := login.threshold;
    && Plausible(s, login)
    && (if s.now < from then recorded == 0
        else if s.now >= from + login.seconds then recorded <= Bound(login)
        else if LockSetSince(s, login, from) then recorded + s.inFlight <= Bound(login)
        else
          match s.lockout.failures
          case None => recorded == 0
          case Some(w) =>
            if w.expiresAt - login.seconds < from then recorded <= w.count - 1 else recorded <= Max(0, t - 2) + w.count)
  }

  lemma StepKeepsFailureBound(s: State, e: Event, recorded: nat, login: Login, from: int)
    requires FailureBound(s, recorded, login, from) && Enabled(s, e, login) && !e.Succeed?
    ensures FailureBound(Step(s, e, login), recorded + InInterval(e, from, from + login.seconds), login, from)
  {
    StepStaysPlausible(s, e, login);
  }

  lemma {:induction false} FailuresStayBounded(states: seq<State>, events: seq<Event>, login: Login, from: int)
    requires IsRun(states, events, login) && Plausible(states[0], login)
    requires forall e | e in events :: !e.Succeed?
    ensures FailureBound(states[|events|], Recorded(events, from, from + login.seconds), login, from)
  {
    if events != [] {
      var n := |events| - 1;
      FailuresStayBounded(states[..n + 1], events[..n], login, from);
      hide FailureBound, Plausible, Enabled, Step;
      assert events[n] in events;
      StepKeepsFailureBound(states[n], events[n], Recorded(events[..n], from, from + login.seconds), login, from);
    }
  }

  /** Without a success in between, the failures recorded in any interval as long as the lock are bounded. For
      requests handled one at a time the bound is `2 * threshold - 2`, or 1 when a single failure locks; every
      further request that may be in flight at once adds one. The run may start in any plausible state. */
  lemma FailuresAreBounded(states: seq<State>, events: seq<Event>, login: Login, from: int)
    requires IsRun(states, events, login) && Plausible(states[0], login)
    requires forall e | e in events :: !e.Succeed?
    ensures Recorded(events, from, from + login.seconds)
      <= Max(0, login.threshold - 2) + login.threshold + login.concurrency - 1
  {
    FailuresStayBounded(states, events, login, from);
    hide Recorded;
  }

  // ----- the bound is reached -----

  lemma RecordedSnoc(events: seq<Event>, e: Event, from: int, to: int)
    ensures Recorded(events + [e], from, to) == Recorded(events, from, to) + InInterval(e, from, to)
  {
    assert (events + [e])[..|events|] == events;
  }

  /** A run that goes on with one more event. */
  lemma OneMore(states: seq<State>, events: seq<Event>, login: Login, e: Event, from: int, to: int)
    returns (states': seq<State>, events': seq<Event>)
    requires IsRun(states, events, login) && Enabled(states[|events|], e, login)
    requires !e.Succeed? && forall x | x in events :: !x.Succeed?
    ensures events' == events + [e] && states' == states + [Step(states[|events|], e, login)]
    ensures IsRun(states', events', login) && |states'| == |events'| + 1
    ensures states'[0] == states[0] && states'[|events'|] == Step(states[|events|], e, login)
    ensures forall x | x in events' :: !x.Succeed?
    ensures Recorded(events', from, to) == Recorded(events, from, to) + InInterval(e, from, to)
  {
    hide Enabled, Step;
    states' := states + [Step(states[|events|], e, login)];
    events' := events + [e];
    RecordedSnoc(events, e, from, to);
  }

  /** Requests one after the other that fail within a live window, too few to lock. */
  lemma {:induction false} FillWindow(states: seq<State>, events: seq<Event>, login: Login, w: Window, at: int, n: nat,
      from: int, to: int) returns (states': seq<State>, events': seq<Event>)
    requires IsRun(states, events, login) && login.concurrency > 0
    requires states[|events|].lockout == Lockout(Some(w), None) && states[|events|].inFlight == 0
    requires states[|events|].now <= at < w.expiresAt && w.count + n < login.threshold
    requires forall x | x in events :: !x.Succeed?
    ensures IsRun(states', events', login) && states'[0] == states[0]
    ensures states'[|events'|].lockout == Lockout(Some(w.(count := w.count + n)), None)
    ensures states'[|events'|].inFlight == 0 && states'[|events'|].now <= at
    ensures forall x | x in events' :: !x.Succeed?
    ensures Recorded(events', from, to) == Recorded(events, from, to) + if from <= at < to then n else 0
    decreases n
  {
    states', events' := states, events;
    if n > 0 {
      hide IsRun, Recorded;
      states', events' := OneMore(states, events, login, Pass(at), from, to);
      states', events' := OneMore(states', events', login, Fail(at), from, to);
      states', events' := FillWindow(states', events', login, w.(count := w.count + 1), at, n - 1, from, to);
    }
  }

  /** One request that fails and opens a window. */
  lemma OpenWindow(states: seq<State>, events: seq<Event>, login: Login, at: int, from: int, to: int)
    returns (states': seq<State>, events': seq<Event>)
    requires IsRun(states, events, login) && login.concurrency > 0 && login.threshold > 1
    requires var s := states[|events|];
      s.inFlight == 0 && s.now <= at && s.lockout.lockedUntil == None && !Live(s.lockout.failures, at)
    requires forall x | x in events :: !x.Succeed?
    ensures IsRun(states', events', login) && states'[0] == states[0]
    ensures states'[|events'|] == State(Lockout(Some(Window(1, at + login.seconds)), None), 0, at)
    ensures forall x | x in events' :: !x.Succeed?
    ensures Recorded(events', from, to) == Recorded(events, from, to) + if from <= at < to then 1 else 0
  {
    hide IsRun, Recorded;
    states', events' := OneMore(states, events, login, Pass(at), from, to);
    states', events' := OneMore(states', events', login, Fail(at), from, to);
  }

  lemma {:induction false} PassTogether(states: seq<State>, events: seq<Event>, login: Login, at: int, n: nat,
      from: int, to: int)
    returns (states': seq<State>, events': seq<Event>)
    requires IsRun(states, events, login)
    requires var s := states[|events|];
      s.lockout.lockedUntil == None && s.inFlight + n <= login.concurrency && s.now <= at
    requires forall x | x in events :: !x.Succeed?
    ensures IsRun(states', events', login) && states'[0] == states[0]
    ensures states'[|events'|].inFlight == states[|events|].inFlight + n && states'[|events'|].now <= at
    ensures forall x | x in events' :: !x.Succeed?
    ensures Recorded(events', from, to) == Recorded(events, from, to)
    decreases n
  {
    states', events' := states, events;
    if n > 0 {
      hide IsRun, Recorded;
      states', events' := OneMore(states, events, login, Pass(at), from, to);
      states', events' := PassTogether(states', events', login, at, n - 1, from, to);
    }
  }

  lemma {:induction false} FailTogether(states: seq<State>, events: seq<Event>, login: Login, at: int, n: nat,
      from: int, to: int)
    returns (states': seq<State>, events': seq<Event>)
    requires IsRun(states, events, login)
    requires states[|events|].inFlight == n && states[|events|].now <= at && from <= at < to
    requires forall x | x in events :: !x.Succeed?
    ensures IsRun(states', events', login) && states'[0] == states[0]
    ensures forall x | x in events' :: !x.Succeed?
    ensures Recorded(events', from, to) == Recorded(events, from, to) + n
    decreases n
  {
    states', events' := states, events;
    if n > 0 {
      hide IsRun, Recorded, AfterFailure;
      states', events' := OneMore(states, events, login, Fail(at), from, to);
      states', events' := FailTogether(states', events', login, at, n - 1, from, to);
    }
  }

  lemma StartsPlausible(login: Login, from: int, to: int) returns (states: seq<State>)
    requires login.threshold > 0 && login.seconds > 0 && login.concurrency > 0
    ensures |states| == 1 && states[0] == State(Lockout(None, None), 0, 0)
    ensures IsRun(states, [], login) && Plausible(states[0], login) && Recorded([], from, to) == 0
  {
    states := [State(Lockout(None, None), 0, 0)];
  }

  /** The bound is reached for every threshold, every number of requests in flight and every lock of at least two
      seconds: a failure opens a window before the interval; others nearly use it up at its end; in the next window all
      but one of the failures that lock come one by one, and the rest from as many requests at once as may be in
      flight. */
  lemma FailureBoundIsReached(login: Login) returns (states: seq<State>, events: seq<Event>)
    requires login.threshold > 0 && login.concurrency > 0 && login.seconds >= 2
    ensures IsRun(states, events, login) && Plausible(states[0], login)
    ensures forall e | e in events :: !e.Succeed?
    ensures Recorded(events, 1, 1 + login.seconds) == Bound(login)
  {
    hide IsRun, Recorded, Plausible;
    var t, l := login.threshold, login.seconds;
    states := StartsPlausible(login, 1, 1 + l);
    events := [];
    if t > 1 {
      states, events := OpenWindow(states, events, login, 0, 1, 1 + l);
      states, events := FillWindow(states, events, login, Window(1, l), l - 1, t - 2, 1, 1 + l);
      states, events := OpenWindow(states, events, login, l, 1, 1 + l);
      states, events := FillWindow(states, events, login, Window(1, 2 * l), l, t - 2, 1, 1 + l);
    }
    states, events := PassTogether(states, events, login, l, login.concurrency, 1, 1 + l);
    states, events := FailTogether(states, events, login, l, login.concurrency, 1, 1 + l);
  }

  // ----- the lock -----

  lemma {:induction false} RunStaysPlausible(states: seq<State>, events: seq<Event>, login: Login, i: nat)
    requires IsRun(states, events, login) && Plausible(states[0], login) && i < |states|
    ensures Plausible(states[i], login)
  {
    if i > 0 {
      hide Plausible, Step, Enabled;
      RunStaysPlausible(states, events, login, i - 1);
      StepStaysPlausible(states[i - 1], events[i - 1], login);
    }
  }

  /** No request in flight can lift the lock between the two places of the run. */
  ghost predicate NothingLifts(states: seq<State>, events: seq<Event>, i: nat, j: nat)
    requires i < |states| && j <= |events|
  {
    states[i].inFlight == 0 || forall k | i <= k < j :: !events[k].Succeed?
  }

  /** A lock lasts until its time, and lets no request through. */
  lemma {:induction false} LockHolds(states: seq<State>, events: seq<Event>, login: Login, i: nat, j: nat)
    requires IsRun(states, events, login) && Plausible(states[0], login) && i <= j < |states|
    requires states[i].lockout.lockedUntil.Some? && states[j].now < states[i].lockout.lockedUntil.value
    requires NothingLifts(states, events, i, j)
    ensures states[j].lockout.lockedUntil.Some?
    ensures states[j].lockout.lockedUntil.value >= states[i].lockout.lockedUntil.value
    ensures states[i].inFlight == 0 ==> states[j].inFlight == 0
    ensures forall k | i <= k < j :: !events[k].Pass?
  {
    if i < j {
      assert Enabled(states[j - 1], events[j - 1], login);
      assert states[j] == Step(states[j - 1], events[j - 1], login);
      LockHolds(states, events, login, i, j - 1);
      RunStaysPlausible(states, events, login, j - 1);
    }
  }

  /** The failure that reaches the threshold shuts the key for the whole period: until then no request gets through,
      unless one that was in flight beside it succeeds. With requests one at a time there is none. */
  lemma ThresholdLocks(states: seq<State>, events: seq<Event>, login: Login, i: nat, j: nat)
    requires IsRun(states, events, login) && Plausible(states[0], login) && i < j < |events|
    requires events[i].Fail?
    requires Counted(states[i].lockout.failures, login.seconds, events[i].at).count >= login.threshold
    requires events[j].at < events[i].at + login.seconds
    requires login.concurrency == 1 || NothingLifts(states, events, i + 1, j)
    ensures !events[j].Pass? && Locked(states[j].lockout, events[j].at)
  {
    RunStaysPlausible(states, events, login, i);
    assert Enabled(states[i], events[i], login) && states[i + 1] == Step(states[i], events[i], login);
    assert Enabled(states[j], events[j], login);
    LockHolds(states, events, login, i + 1, j);
  }

  /** A failure before that does not lock. */
  lemma BelowThresholdNothingLocks(states: seq<State>, events: seq<Event>, login: Login, i: nat)
    requires IsRun(states, events, login) && i < |events| && events[i].Fail?
    ensures Counted(states[i].lockout.failures, login.seconds, events[i].at).count < login.threshold
      <==> states[i + 1].lockout.failures.Some?
    ensures states[i + 1].lockout.failures.Some? ==>
      states[i + 1].lockout.lockedUntil == states[i].lockout.lockedUntil
  {
    assert states[i + 1] == Step(states[i], events[i], login);
  }
}
