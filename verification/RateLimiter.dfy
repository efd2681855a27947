/** `OutboundRateLimiter`: spacing, failure backoff and Retry-After per address of record.
    Instants and durations are integer nanoseconds. */
module RateLimiter {
  import opened Prelude

  const SECOND: nat := 1_000_000_000

  datatype Config = Config(minInterval: nat, failureBackoffSteps: seq<nat>)

  datatype Decision = Allow(previousInterval: Option<nat>) | Deny(retryAfter: nat)

  datatype AorState = AorState(lastAllowedAt: int, failureStreak: u32, retryAfterUntil: Option<int>)

  /** What the limiter has been asked and told, in order. */
  datatype Event =
    | Allowed(at: int)
    | Denied(at: int, retryAfter: nat)
    | Failed(at: int, status: u16, retryAfterSecs: Option<u32>)
    | Succeeded

  predicate IsServerError(status: u16) {
    500 <= status < 600
  }

  // ---- the state as a function of one AOR's own history --------------------

  ghost predicate Is5xx(e: Event) {
    e.Failed? && IsServerError(e.status)
  }

  /** The events after the latest success. */
  ghost function SinceSuccess(h: seq<Event>): seq<Event> {
    if h == [] || h[|h| - 1].Succeeded? then [] else SinceSuccess(h[..|h| - 1]) + [h[|h| - 1]]
  }

  /** The events after the latest success or admission, whichever came later. */
  ghost function SinceReset(h: seq<Event>): seq<Event> {
    if h == [] || h[|h| - 1].Succeeded? || h[|h| - 1].Allowed? then []
    else SinceReset(h[..|h| - 1]) + [h[|h| - 1]]
  }

  ghost function Count5xx(h: seq<Event>): nat {
    if h == [] then 0 else Count5xx(h[..|h| - 1]) + if Is5xx(h[|h| - 1]) then 1 else 0
  }

  /** The deadline a failure sets: only a 5xx with Retry-After sets one. */
  ghost function DeadlineOf(e: Event): Option<int> {
    if Is5xx(e) && e.retryAfterSecs.Some? then Some(e.at + e.retryAfterSecs.value * SECOND) else None
  }

  ghost function Later(a: Option<int>, b: Option<int>): Option<int> {
    match (a, b)
    case (Some(x), Some(y)) => Some(Max(x, y))
    case (None, _) => b
    case (_, None) => a
  }

  /** The latest of all deadlines set in `h`. */
  ghost function MaxDeadline(h: seq<Event>): Option<int> {
    if h == [] then None else Later(MaxDeadline(h[..|h| - 1]), DeadlineOf(h[|h| - 1]))
  }

  ghost function LatestAllow(h: seq<Event>): Option<int> {
    if h == [] then None
    else if h[|h| - 1].Allowed? then Some(h[|h| - 1].at)
    else LatestAllow(h[..|h| - 1])
  }

  ghost function FirstFailure(h: seq<Event>): Option<int> {
    if h == [] then None
    else if h[0].Failed? then Some(h[0].at)
    else FirstFailure(h[1..])
  }

  /** The stored entry: none before the first admission or recorded failure. */
  ghost function Expected(h: seq<Event>): Option<AorState> {
    if LatestAllow(h).None? && FirstFailure(h).None? then None
    else Some(AorState(
      if LatestAllow(h).Some? then LatestAllow(h).value else FirstFailure(h).value,
      Min(Count5xx(SinceSuccess(h)), 0xFFFF_FFFF),
      MaxDeadline(SinceReset(h))))
  }

  // ---- the verdict ----------------------------------------------------------

  function Wait(cfg: Config, streak: u32): (w: nat)
    ensures w >= cfg.minInterval
  {
    if streak == 0 || cfg.failureBackoffSteps == [] then cfg.minInterval
    else Max(cfg.minInterval, cfg.failureBackoffSteps[Min(streak - 1, |cfg.failureBackoffSteps| - 1)])
  }

  /** The first instant at which a request is admitted. */
  function AllowAt(cfg: Config, s: AorState): (t: int)
    ensures t >= s.lastAllowedAt + cfg.minInterval
    ensures s.retryAfterUntil.Some? ==> t >= s.retryAfterUntil.value
  {
    var intervalUntil := s.lastAllowedAt + Wait(cfg, s.failureStreak);
    match s.retryAfterUntil
    case None => intervalUntil
    case Some(ra) => Max(ra, intervalUntil)
  }

  predicate Permits(cfg: Config, s: Option<AorState>, now: int) {
    s.Some? ==> now >= AllowAt(cfg, s.value)
  }

  function SinceLast(s: Option<AorState>, now: int): Option<nat> {
    if s.None? then None else Some(Max(now - s.value.lastAllowedAt, 0))
  }

  /** The deadline kept across an admission: only one that has not passed. */
  function StillPending(s: Option<AorState>, now: int): Option<int> {
    if s.Some? && s.value.retryAfterUntil.Some? && s.value.retryAfterUntil.value > now
    then s.value.retryAfterUntil else None
  }

  /** The code keeps a pending deadline across an admission, but an admission means that none is pending. */
  lemma NothingPending(cfg: Config, s: Option<AorState>, now: int)
    requires Permits(cfg, s, now)
    ensures StillPending(s, now) == None
  {
    hide Wait;
  }

  /** Rounds a duration up to whole seconds, and never down to zero. */
  function RoundUpSecs(d: nat): (r: nat)
    ensures r % 1_000_000_000 == 0 && r >= 1_000_000_000
    ensures d > 0 ==> r - 1_000_000_000 < d <= r
  {
    var secs := d / SECOND;
    var up := if d % SECOND > 0 then secs + 1 else secs;
    (if up == 0 then 1 else up) * SECOND
  }

  /** Every verdict recorded in `h` is the one that the history before it demands. */
  ghost predicate Legal(cfg: Config, h: seq<Event>) {
    forall k :: 0 <= k < |h| ==> LegalAt(cfg, h, k)
  }

  ghost predicate LegalAt(cfg: Config, h: seq<Event>, k: nat)
    requires k < |h|
  {
    match h[k]
    case Allowed(at) => Permits(cfg, Expected(h[..k]), at)
    case Denied(at, r) =>
      && !Permits(cfg, Expected(h[..k]), at)
      && r == RoundUpSecs(AllowAt(cfg, Expected(h[..k]).value) - at)
    case _ => true
  }

  // ---- how one more event changes the expected state -------------------------

  lemma Snoc(h: seq<Event>, e: Event)
    ensures SinceSuccess(h + [e]) == if e.Succeeded? then [] else SinceSuccess(h) + [e]
    ensures SinceReset(h + [e]) == if e.Succeeded? || e.Allowed? then [] else SinceReset(h) + [e]
    ensures Count5xx(h + [e]) == Count5xx(h) + if Is5xx(e) then 1 else 0
    ensures MaxDeadline(h + [e]) == Later(MaxDeadline(h), DeadlineOf(e))
    ensures LatestAllow(h + [e]) == if e.Allowed? then Some(e.at) else LatestAllow(h)
  {
    assert (h + [e])[..|h|] == h;
  }

  lemma {:induction false} FirstFailureSnoc(h: seq<Event>, e: Event)
    ensures FirstFailure(h + [e])
         == if FirstFailure(h).Some? then FirstFailure(h) else if e.Failed? then Some(e.at) else None
  {
    if h == [] {
      assert h + [e] == [e];
    } else {
      FirstFailureSnoc(h[1..], e);
      assert (h + [e])[1..] == h[1..] + [e];
    }
  }

  lemma ExpectedAllowed(cfg: Config, h: seq<Event>, at: int)
    ensures Expected(h + [Allowed(at)])
         == Some(AorState(at, if Expected(h).Some? then Expected(h).value.failureStreak else 0, None))
  {
    Snoc(h, Allowed(at));
    Snoc(SinceSuccess(h), Allowed(at));
    if Expected(h).None? {
      NoFailureNoStreak(h);
    }
    hide SinceSuccess;
    hide SinceReset;
    hide Count5xx;
    hide LatestAllow;
    hide FirstFailure;
  }

  lemma {:induction false} NoFailureNoStreak(h: seq<Event>)
    requires FirstFailure(h).None?
    ensures Count5xx(SinceSuccess(h)) == 0 && MaxDeadline(SinceReset(h)) == None
  {
    if h != [] {
      var before, e := h[..|h| - 1], h[|h| - 1];
      assert before + [e] == h;
      FirstFailureSnoc(before, e);
      NoFailureNoStreak(before);
      Snoc(before, e);
      Snoc(SinceSuccess(before), e);
      Snoc(SinceReset(before), e);
      assert Count5xx([]) == 0 && MaxDeadline([]) == None;
      hide SinceSuccess;
      hide SinceReset;
      hide Count5xx;
      hide MaxDeadline;
    }
  }

  lemma ExpectedDenied(h: seq<Event>, at: int, r: nat)
    ensures Expected(h + [Denied(at, r)]) == Expected(h)
  {
    var e := Denied(at, r);
    Snoc(h, e);
    Snoc(SinceSuccess(h), e);
    Snoc(SinceReset(h), e);
    FirstFailureSnoc(h, e);
    hide SinceSuccess;
    hide SinceReset;
    hide Count5xx;
    hide MaxDeadline;
    hide LatestAllow;
    hide FirstFailure;
  }

  lemma ExpectedSucceeded(h: seq<Event>)
    ensures Expected(h + [Succeeded])
         == if Expected(h).None? then None else Some(AorState(Expected(h).value.lastAllowedAt, 0, None))
  {
    Snoc(h, Succeeded);
    FirstFailureSnoc(h, Succeeded);
  }

  lemma ExpectedFailed(h: seq<Event>, at: int, status: u16, ra: Option<u32>)
    ensures var e := Failed(at, status, ra);
            var s := if Expected(h).Some? then Expected(h).value else AorState(at, 0, None);
            Expected(h + [e]) == Some(AorState(
              s.lastAllowedAt,
              Min(s.failureStreak + (if Is5xx(e) then 1 else 0), 0xFFFF_FFFF),
              Later(s.retryAfterUntil, DeadlineOf(e))))
  {
    hide SinceSuccess;
    hide SinceReset;
    hide Count5xx;
    hide MaxDeadline;
    hide LatestAllow;
    hide FirstFailure;
    hide DeadlineOf;
    var e := Failed(at, status, ra);
    Snoc(h, e);
    Snoc(SinceSuccess(h), e);
    Snoc(SinceReset(h), e);
    FirstFailureSnoc(h, e);
    if Expected(h).None? {
      NoFailureNoStreak(h);
    }
    hide Is5xx;
  }

  lemma LegalSnoc(cfg: Config, h: seq<Event>, e: Event)
    requires Legal(cfg, h) && LegalAt(cfg, h + [e], |h|)
    ensures Legal(cfg, h + [e])
  {
    forall k | 0 <= k < |h + [e]|
      ensures LegalAt(cfg, h + [e], k)
    {
      if k < |h| {
        assert (h + [e])[..k] == h[..k];
        assert LegalAt(cfg, h, k);
      }
    }
  }

  // ---- the limiter over all AORs ---------------------------------------------

  datatype Entry = Entry(aor: string, event: Event)

  /** The events of one AOR. */
  ghost function Own(log: seq<Entry>, aor: string): seq<Event> {
    if log == [] then []
    else
      var e := log[|log| - 1];
      if e.aor == aor then Own(log[..|log| - 1], aor) + [e.event] else Own(log[..|log| - 1], aor)
  }

  lemma OwnSnoc(log: seq<Entry>, e: Entry, aor: string)
    ensures Own(log + [e], aor) == if e.aor == aor then Own(log, aor) + [e.event] else Own(log, aor)
  {
    assert (log + [e])[..|log|] == log;
  }

  function Get(state: map<string, AorState>, aor: string): Option<AorState> {
    if aor in state then Some(state[aor]) else None
  }

  /** The table is right about one AOR: what it stores is what that AOR's own events call for. */
  ghost predicate Right(cfg: Config, state: map<string, AorState>, log: seq<Entry>, aor: string) {
    Get(state, aor) == Expected(Own(log, aor)) && Legal(cfg, Own(log, aor))
  }

  lemma RightElsewhere(
    cfg: Config, state: map<string, AorState>, state': map<string, AorState>, log: seq<Entry>, e: Entry)
    requires forall a :: Right(cfg, state, log, a)
    requires forall a :: a != e.aor ==> Get(state', a) == Get(state, a)
    ensures forall a :: a != e.aor ==> Right(cfg, state', log + [e], a)
  {
    forall a | a != e.aor
      ensures Right(cfg, state', log + [e], a)
    {
      assert Right(cfg, state, log, a);
      OwnSnoc(log, e, a);
    }
  }

  class OutboundRateLimiter {
    const config: Config
    var state: map<string, AorState>
    ghost var log: seq<Entry>

    ghost predicate Valid()
      reads this
    {
      forall aor :: Right(config, state, log, aor)
    }

    constructor (config: Config)
      ensures Valid() && log == [] && this.config == config
    {
      this.config, state, log := config, map[], [];
    }

    method CheckAndRecordAt(aor: string, now: int) returns (d: Decision)
      requires Valid()
      modifies this
      ensures Valid()
      ensures d.Allow? <==> Permits(config, Expected(Own(old(log), aor)), now)
      ensures log == old(log) + [Entry(aor, if d.Allow? then Allowed(now) else Denied(now, d.retryAfter))]
      ensures d.Allow? ==> d.previousInterval == SinceLast(Expected(Own(old(log), aor)), now)
      ensures d.Deny? ==> state == old(state)
    {
      hide Legal;
      hide Expected;
      hide Own;
      hide RoundUpSecs;
      ghost var own := Own(log, aor);
      assert Right(config, state, log, aor);
      var entry := Get(state, aor);
      if entry.Some? {
        var s := entry.value;
        var wait := config.minInterval;
        if s.failureStreak > 0 {
          var idx := Min(s.failureStreak - 1, Max(|config.failureBackoffSteps| - 1, 0));
          if idx < |config.failureBackoffSteps| {
            var step := config.failureBackoffSteps[idx];
            if step > wait {
              wait := step;
            }
          }
        }
        var intervalUntil := s.lastAllowedAt + wait;
        var allowAt := intervalUntil;
        if s.retryAfterUntil.Some? && s.retryAfterUntil.value > intervalUntil {
          allowAt := s.retryAfterUntil.value;
        }
        assert allowAt == AllowAt(config, s);
        if now < allowAt {
          d := Deny(RoundUpSecs(allowAt - now));
          RecordDenied(aor, now, d.retryAfter);
          return;
        }
      }
      NothingPending(config, entry, now);
      var cleared := StillPending(entry, now);
      var streak := if entry.Some? then entry.value.failureStreak else 0;
      RecordAllowed(aor, now, AorState(now, streak, cleared));
      d := Allow(SinceLast(entry, now));
    }

    ghost method RecordDenied(aor: string, now: int, r: nat)
      requires Valid()
      requires !Permits(config, Expected(Own(log, aor)), now)
      requires r == RoundUpSecs(AllowAt(config, Expected(Own(log, aor)).value) - now)
      modifies this`log
      ensures Valid() && log == old(log) + [Entry(aor, Denied(now, r))]
    {
      hide Expected;
      ghost var own, e := Own(log, aor), Entry(aor, Denied(now, r));
      assert Right(config, state, log, aor);
      RightElsewhere(config, state, state, log, e);
      OwnSnoc(log, e, aor);
      ExpectedDenied(own, now, r);
      assert (own + [e.event])[..|own|] == own;
      LegalSnoc(config, own, e.event);
      log := log + [e];
    }

    method RecordAllowed(aor: string, now: int, updated: AorState)
      requires Valid()
      requires Permits(config, Expected(Own(log, aor)), now)
      requires updated ==
        AorState(now, match Expected(Own(log, aor)) case None => 0 case Some(s) => s.failureStreak, None)
      modifies this
      ensures Valid() && log == old(log) + [Entry(aor, Allowed(now))]
      ensures state == old(state)[aor := updated]
    {
      hide Expected;
      ghost var own, e := Own(log, aor), Entry(aor, Allowed(now));
      assert Right(config, state, log, aor);
      ghost var state0 := state;
      state := state[aor := updated];
      RightElsewhere(config, state0, state, log, e);
      OwnSnoc(log, e, aor);
      ExpectedAllowed(config, own, now);
      assert (own + [e.event])[..|own|] == own;
      LegalSnoc(config, own, e.event);
      log := log + [e];
    }

    method RecordFailureAt(aor: string, status: u16, retryAfterSecs: Option<u32>, now: int)
      requires Valid()
      modifies this
      ensures Valid() && log == old(log) + [Entry(aor, Failed(now, status, retryAfterSecs))]
    {
      hide Legal;
      hide Expected;
      hide Own;
      ghost var own, e := Own(log, aor), Entry(aor, Failed(now, status, retryAfterSecs));
      assert Right(config, state, log, aor);
      ghost var state0 := state;
      var entry := if aor in state then state[aor] else AorState(now, 0, None);
      if IsServerError(status) {
        entry := entry.(failureStreak := Min(entry.failureStreak + 1, 0xFFFF_FFFF));
      }
      if IsServerError(status) && retryAfterSecs.Some? {
        var until := now + retryAfterSecs.value * SECOND;
        entry := entry.(retryAfterUntil :=
          if entry.retryAfterUntil.Some? && entry.retryAfterUntil.value > until then entry.retryAfterUntil
          else Some(until));
      }
      state := state[aor := entry];
      RightElsewhere(config, state0, state, log, e);
      OwnSnoc(log, e, aor);
      ExpectedFailed(own, now, status, retryAfterSecs);
      LegalSnoc(config, own, e.event);
      log := log + [e];
    }

    method RecordSuccess(aor: string)
      requires Valid()
      modifies this
      ensures Valid() && log == old(log) + [Entry(aor, Succeeded)]
    {
      hide Legal;
      hide Expected;
      hide Own;
      ghost var own, e := Own(log, aor), Entry(aor, Succeeded);
      assert Right(config, state, log, aor);
      ghost var state0 := state;
      if aor in state {
        state := state[aor := state[aor].(failureStreak := 0, retryAfterUntil := None)];
      }
      RightElsewhere(config, state0, state, log, e);
      OwnSnoc(log, e, aor);
      ExpectedSucceeded(own);
      LegalSnoc(config, own, e.event);
      log := log + [e];
    }
  }

  // ---- guarantees over whole runs ----------------------------------------------

  /** One call of the limiter by a dialer, or one fed-back INVITE result. */
  datatype Call =
    | Check(aor: string, now: int)
    | ReportFailure(aor: string, status: u16, retryAfterSecs: Option<u32>, now: int)
    | ReportSuccess(aor: string)

  /** The log entry that a call leaves: a check leaves its verdict. */
  predicate Answers(call: Call, e: Entry) {
    e.aor == call.aor &&
    match call
    case Check(_, now) => e.event == Allowed(now) || (e.event.Denied? && e.event.at == now)
    case ReportFailure(_, status, ra, now) => e.event == Failed(now, status, ra)
    case ReportSuccess(_) => e.event == Succeeded
  }

  /** Any sequence of calls, for any AORs and with clock readings in any order, yields a legal
      history for every AOR. */
  method Run(config: Config, calls: seq<Call>) returns (log: seq<Entry>)
    ensures |log| == |calls|
    ensures forall k :: 0 <= k < |calls| ==> Answers(calls[k], log[k])
    ensures forall aor :: Legal(config, Own(log, aor))
  {
    var limiter := new OutboundRateLimiter(config);
    log := [];
    for k := 0 to |calls|
      invariant limiter.Valid() && limiter.config == config && fresh(limiter)
      invariant log == limiter.log && |log| == k
      invariant forall i :: 0 <= i < k ==> Answers(calls[i], log[i])
    {
      hide OutboundRateLimiter.Valid;
      hide Own;
      hide Permits;
      match calls[k] {
        case Check(aor, now) =>
          var d := limiter.CheckAndRecordAt(aor, now);
          log := log + [Entry(aor, if d.Allow? then Allowed(now) else Denied(now, d.retryAfter))];
        case ReportFailure(aor, status, ra, now) =>
          limiter.RecordFailureAt(aor, status, ra, now);
          log := log + [Entry(aor, Failed(now, status, ra))];
        case ReportSuccess(aor) =>
          limiter.RecordSuccess(aor);
          log := log + [Entry(aor, Succeeded)];
      }
    }
    forall aor
      ensures Legal(config, Own(log, aor))
    {
      assert Right(config, limiter.state, log, aor);
    }
  }

  lemma LegalPrefix(cfg: Config, h: seq<Event>, n: nat)
    requires Legal(cfg, h) && n <= |h|
    ensures Legal(cfg, h[..n])
  {
    forall k | 0 <= k < n
      ensures LegalAt(cfg, h[..n], k)
    {
      assert h[..n][..k] == h[..k];
      assert LegalAt(cfg, h, k);
    }
  }

  /** An admission comes at least `minInterval` after the latest one. */
  lemma AllowAfterLatest(cfg: Config, h: seq<Event>, j: nat)
    requires Legal(cfg, h) && j < |h| && h[j].Allowed?
    ensures LatestAllow(h[..j]).Some? ==> h[j].at >= LatestAllow(h[..j]).value + cfg.minInterval
  {
    hide AllowAt;
    assert LegalAt(cfg, h, j);
  }

  lemma {:induction false} LatestIsLatest(cfg: Config, h: seq<Event>, i: nat)
    requires Legal(cfg, h) && i < |h| && h[i].Allowed?
    ensures LatestAllow(h).Some? && LatestAllow(h).value >= h[i].at
  {
    var n := |h| - 1;
    if i < n {
      LegalPrefix(cfg, h, n);
      LatestIsLatest(cfg, h[..n], i);
      if h[n].Allowed? {
        AllowAfterLatest(cfg, h, n);
      }
    }
  }

  /** Any two admissions of one AOR are at least `minInterval` apart. */
  lemma AllowsSpaced(cfg: Config, h: seq<Event>, i: nat, j: nat)
    requires Legal(cfg, h) && i < j < |h| && h[i].Allowed? && h[j].Allowed?
    ensures h[j].at >= h[i].at + cfg.minInterval
  {
    LegalPrefix(cfg, h, j);
    LatestIsLatest(cfg, h[..j], i);
    AllowAfterLatest(cfg, h, j);
  }

  /** The consecutive 5xx failures that the limiter knows of, as its 32-bit counter holds them. */
  ghost function Streak(h: seq<Event>): u32 {
    Min(Count5xx(SinceSuccess(h)), 0xFFFF_FFFF)
  }

  /** The backoff step for a streak: the steps in order, then the last one again and again. */
  function BackoffStep(cfg: Config, streak: u32): nat
    requires streak >= 1 && cfg.failureBackoffSteps != []
  {
    cfg.failureBackoffSteps[Min(streak, |cfg.failureBackoffSteps|) - 1]
  }

  /** The instant that spacing and backoff count from. */
  ghost function LastInstant(h: seq<Event>): Option<int> {
    if LatestAllow(h).Some? then LatestAllow(h) else FirstFailure(h)
  }

  ghost predicate DeadlinesPassed(h: seq<Event>, now: int) {
    forall i :: 0 <= i < |h| && DeadlineOf(h[i]).Some? ==> now >= DeadlineOf(h[i]).value
  }

  lemma {:induction false} MaxDeadlineIff(h: seq<Event>, now: int)
    ensures (MaxDeadline(h).Some? ==> now >= MaxDeadline(h).value) <==> DeadlinesPassed(h, now)
  {
    if h != [] {
      var before, e := h[..|h| - 1], h[|h| - 1];
      MaxDeadlineIff(before, now);
      assert DeadlinesPassed(h, now) <==>
        DeadlinesPassed(before, now) && (DeadlineOf(e).Some? ==> now >= DeadlineOf(e).value);
      hide DeadlineOf;
    }
  }

  /** Exactly when a check is admitted, in terms of what happened: at once for an unknown AOR, else after
      the spacing, after the backoff step of the failure streak, and after the Retry-After of every 5xx
      since the latest success or admission. */
  lemma AdmittedIff(cfg: Config, h: seq<Event>, now: int)
    ensures Permits(cfg, Expected(h), now) <==>
            || LastInstant(h).None?
            || (&& now >= LastInstant(h).value + cfg.minInterval
                && (Streak(h) >= 1 && cfg.failureBackoffSteps != [] ==>
                      now >= LastInstant(h).value + BackoffStep(cfg, Streak(h)))
                && DeadlinesPassed(SinceReset(h), now))
  {
    MaxDeadlineIff(SinceReset(h), now);
    hide DeadlinesPassed;
    hide SinceReset;
    hide MaxDeadline;
  }

  // ---- the same, event by event ---------------------------------------------------

  /** Event `i` is the latest admission. */
  ghost predicate AllowedLast(h: seq<Event>, i: int, t: int) {
    0 <= i < |h| && h[i] == Allowed(t) && forall j :: i < j < |h| ==> !h[j].Allowed?
  }

  ghost predicate NeverAllowed(h: seq<Event>) {
    forall j :: 0 <= j < |h| ==> !h[j].Allowed?
  }

  /** Event `i` is the first failure. */
  ghost predicate FailedFirst(h: seq<Event>, i: int, t: int) {
    0 <= i < |h| && h[i].Failed? && h[i].at == t && forall j :: 0 <= j < i ==> !h[j].Failed?
  }

  /** Spacing counts from `t`: the latest admission, or the first failure of an AOR never admitted. */
  ghost predicate CountsFrom(h: seq<Event>, t: int) {
    (exists i :: AllowedLast(h, i, t)) || (NeverAllowed(h) && exists i :: FailedFirst(h, i, t))
  }

  ghost predicate Unknown(h: seq<Event>) {
    forall i :: 0 <= i < |h| ==> !h[i].Allowed? && !h[i].Failed?
  }

  /** The 5xx failures with no success after them. */
  ghost function InARow(h: seq<Event>): set<nat> {
    set i: nat | i < |h| && h[i].Failed? && 500 <= h[i].status < 600 && forall j :: i < j < |h| ==> !h[j].Succeeded?
  }

  /** Every Retry-After of a 5xx with no success and no admission after it has passed. */
  ghost predicate AllPassed(h: seq<Event>, now: int) {
    forall i :: 0 <= i < |h| && (forall j :: i < j < |h| ==> !h[j].Succeeded? && !h[j].Allowed?) ==>
      (h[i].Failed? && 500 <= h[i].status < 600 && h[i].retryAfterSecs.Some? ==>
        now >= h[i].at + h[i].retryAfterSecs.value * 1_000_000_000)
  }

  lemma AllowedLastStays(h: seq<Event>, e: Event, i: int, t: int)
    requires AllowedLast(h, i, t) && !e.Allowed?
    ensures AllowedLast(h + [e], i, t)
  {
  }

  lemma NeverAllowedStays(h: seq<Event>, e: Event)
    requires NeverAllowed(h) && !e.Allowed?
    ensures NeverAllowed(h + [e])
  {
  }

  lemma NewestAllowed(h: seq<Event>, t: int)
    ensures AllowedLast(h + [Allowed(t)], |h|, t)
  {
  }

  lemma {:induction false} LatestAllowIs(h: seq<Event>)
    ensures LatestAllow(h).None? ==> NeverAllowed(h)
    ensures LatestAllow(h).Some? ==> exists i :: AllowedLast(h, i, LatestAllow(h).value)
  {
    if h != [] {
      var before, e := h[..|h| - 1], h[|h| - 1];
      assert before + [e] == h;
      LatestAllowIs(before);
      Snoc(before, e);
      hide *;
      if e.Allowed? {
        NewestAllowed(before, e.at);
      } else if LatestAllow(before).Some? {
        var i :| AllowedLast(before, i, LatestAllow(before).value);
        AllowedLastStays(before, e, i, LatestAllow(before).value);
      } else {
        NeverAllowedStays(before, e);
      }
    }
  }

  lemma OneLatest(h: seq<Event>, i: int, t: int, j: int, u: int)
    requires AllowedLast(h, i, t)
    ensures AllowedLast(h, j, u) ==> t == u
    ensures !NeverAllowed(h)
  {
  }

  lemma OneFirst(h: seq<Event>, i: int, t: int, j: int, u: int)
    requires FailedFirst(h, i, t)
    ensures FailedFirst(h, j, u) ==> t == u
  {
  }

  lemma FailedLater(h: seq<Event>, e: Event, i: int, t: int)
    requires FailedFirst(h, i, t) && !e.Failed?
    ensures FailedFirst([e] + h, i + 1, t)
  {
  }

  lemma FailedNow(h: seq<Event>)
    requires h != [] && h[0].Failed?
    ensures FailedFirst(h, 0, h[0].at)
  {
  }

  lemma {:induction false} FirstFailureIs(h: seq<Event>)
    ensures FirstFailure(h).None? ==> forall j :: 0 <= j < |h| ==> !h[j].Failed?
    ensures FirstFailure(h).Some? ==> exists i :: FailedFirst(h, i, FirstFailure(h).value)
  {
    if h != [] {
      if h[0].Failed? {
        FailedNow(h);
      } else {
        var rest := h[1..];
        assert h == [h[0]] + rest;
        FirstFailureIs(rest);
        hide FailedFirst;
        if FirstFailure(rest).Some? {
          var i :| FailedFirst(rest, i, FirstFailure(rest).value);
          FailedLater(rest, h[0], i, FirstFailure(rest).value);
        }
      }
    }
  }

  lemma UnknownIs(h: seq<Event>)
    ensures Unknown(h) <==> LastInstant(h).None?
  {
    LatestAllowIs(h);
    FirstFailureIs(h);
    hide LatestAllow;
    hide FirstFailure;
  }

  lemma CountsFromIs(h: seq<Event>, t: int)
    ensures CountsFrom(h, t) <==> LastInstant(h) == Some(t)
  {
    LatestAllowIs(h);
    FirstFailureIs(h);
    forall i, j, u
      ensures AllowedLast(h, i, t) && AllowedLast(h, j, u) ==> t == u
      ensures FailedFirst(h, i, t) && FailedFirst(h, j, u) ==> t == u
      ensures AllowedLast(h, i, t) ==> !NeverAllowed(h)
    {
      if AllowedLast(h, i, t) {
        OneLatest(h, i, t, j, u);
      }
      if FailedFirst(h, i, t) {
        OneFirst(h, i, t, j, u);
      }
    }
    hide LatestAllow;
    hide FirstFailure;
    hide AllowedLast;
    hide FailedFirst;
    hide NeverAllowed;
  }

  lemma {:induction false} InARowCount(h: seq<Event>)
    ensures |InARow(h)| == Count5xx(SinceSuccess(h))
  {
    if h == [] {
      assert InARow(h) == {} && SinceSuccess(h) == [];
    } else {
      var before, e := h[..|h| - 1], h[|h| - 1];
      assert before + [e] == h;
      InARowCount(before);
      InARowSnoc(before, e);
      SinceSuccessCount(before, e);
      hide *;
    }
  }

  lemma SinceSuccessCount(h: seq<Event>, e: Event)
    ensures Count5xx(SinceSuccess(h + [e]))
         == if e.Succeeded? then 0
            else Count5xx(SinceSuccess(h)) + if e.Failed? && 500 <= e.status < 600 then 1 else 0
  {
    Snoc(h, e);
    Snoc(SinceSuccess(h), e);
  }

  lemma InARowSnoc(h: seq<Event>, e: Event)
    ensures e.Succeeded? ==> InARow(h + [e]) == {}
    ensures e.Failed? && 500 <= e.status < 600 ==> InARow(h + [e]) == InARow(h) + {|h|} && |h| !in InARow(h)
    ensures !e.Succeeded? && !(e.Failed? && 500 <= e.status < 600) ==> InARow(h + [e]) == InARow(h)
  {
    var h' := h + [e];
    assert h'[|h|] == e && forall j :: 0 <= j < |h| ==> h'[j] == h[j];
  }

  lemma {:induction false} AllPassedIs(h: seq<Event>, now: int)
    ensures AllPassed(h, now) <==> DeadlinesPassed(SinceReset(h), now)
  {
    if h != [] {
      var before, e := h[..|h| - 1], h[|h| - 1];
      assert before + [e] == h;
      AllPassedIs(before, now);
      Snoc(before, e);
      AllPassedSnoc(before, e, now);
      DeadlinesSnoc(SinceReset(before), e, now);
      hide AllPassed;
      hide DeadlinesPassed;
      hide SinceReset;
    }
  }

  /** The deadline `e` sets has passed, if it sets one. */
  ghost predicate OwnPassed(e: Event, now: int) {
    e.Failed? && 500 <= e.status < 600 && e.retryAfterSecs.Some? ==> now >= e.at + e.retryAfterSecs.value * 1_000_000_000
  }

  lemma AllPassedSnoc(h: seq<Event>, e: Event, now: int)
    ensures e.Succeeded? || e.Allowed? ==> AllPassed(h + [e], now)
    ensures !e.Succeeded? && !e.Allowed? ==> (AllPassed(h + [e], now) <==> AllPassed(h, now) && OwnPassed(e, now))
  {
    var h' := h + [e];
    assert h'[|h|] == e && forall j :: 0 <= j < |h| ==> h'[j] == h[j];
  }

  lemma DeadlinesSnoc(h: seq<Event>, e: Event, now: int)
    ensures DeadlinesPassed([], now)
    ensures DeadlinesPassed(h + [e], now) <==> DeadlinesPassed(h, now) && OwnPassed(e, now)
  {
    var h' := h + [e];
    assert h'[|h|] == e && forall j :: 0 <= j < |h| ==> h'[j] == h[j];
  }

  /** Exactly when a check is admitted, read off the events of the AOR one by one. An AOR without an
      admission and without a failure is admitted. Else the spacing must have passed since the latest
      admission (or the first failure), the backoff step for the 5xx failures in a row, and the
      Retry-After of each 5xx since the latest success or admission. */
  lemma AdmittedExactly(cfg: Config, h: seq<Event>, now: int)
    ensures Unknown(h) ==> Permits(cfg, Expected(h), now)
    ensures !Unknown(h) ==> exists t :: CountsFrom(h, t)
    ensures forall t :: CountsFrom(h, t) ==>
      (Permits(cfg, Expected(h), now) <==>
        var n, steps := Min(|InARow(h)|, 0xFFFF_FFFF), cfg.failureBackoffSteps;
        && now >= t + cfg.minInterval
        && (n > 0 && steps != [] ==> now >= t + steps[if n <= |steps| then n - 1 else |steps| - 1])
        && AllPassed(h, now))
  {
    hide *;
    AdmittedUnknown(cfg, h, now);
    forall t | CountsFrom(h, t)
      ensures
        Permits(cfg, Expected(h), now) <==>
        var n, steps := Min(|InARow(h)|, 0xFFFF_FFFF), cfg.failureBackoffSteps;
        && now >= t + cfg.minInterval
        && (n > 0 && steps != [] ==> now >= t + steps[if n <= |steps| then n - 1 else |steps| - 1])
        && AllPassed(h, now)
    {
      AdmittedKnown(cfg, h, t, now);
    }
  }

  lemma AdmittedUnknown(cfg: Config, h: seq<Event>, now: int)
    ensures Unknown(h) ==> Permits(cfg, Expected(h), now)
    ensures !Unknown(h) ==> exists t :: CountsFrom(h, t)
  {
    AdmittedIff(cfg, h, now);
    UnknownIs(h);
    hide *;
    if LastInstant(h).Some? {
      CountsFromIs(h, LastInstant(h).value);
    }
  }

  lemma AdmittedKnown(cfg: Config, h: seq<Event>, t: int, now: int)
    requires CountsFrom(h, t)
    ensures Permits(cfg, Expected(h), now) <==>
            var n, steps := Min(|InARow(h)|, 0xFFFF_FFFF), cfg.failureBackoffSteps;
            && now >= t + cfg.minInterval
            && (n > 0 && steps != [] ==> now >= t + steps[if n <= |steps| then n - 1 else |steps| - 1])
            && AllPassed(h, now)
  {
    AdmittedIff(cfg, h, now);
    InARowCount(h);
    AllPassedIs(h, now);
    CountsFromIs(h, t);
    assert Streak(h) == Min(|InARow(h)|, 0xFFFF_FFFF);
    hide CountsFrom;
    hide AllPassed;
    hide DeadlinesPassed;
    hide InARow;
    hide LastInstant;
    hide Permits;
    hide Expected;
    hide Streak;
  }

  /** A status outside 500..599 changes neither the streak nor a deadline: nothing at all for a known AOR. */
  lemma OtherStatusIgnored(h: seq<Event>, at: int, status: u16, ra: Option<u32>)
    requires status < 500 || status >= 600
    ensures Expected(h).Some? ==> Expected(h + [Failed(at, status, ra)]) == Expected(h)
    ensures Expected(h).None? ==> Expected(h + [Failed(at, status, ra)]) == Some(AorState(at, 0, None))
  {
    ExpectedFailed(h, at, status, ra);
    if Expected(h).Some? {
      assert Expected(h).value.failureStreak <= 0xFFFF_FFFF;
    }
    hide Expected;
  }

  /** The interval an admission reports: none for an AOR never seen, else the time since the instant that
      spacing counts from, and no less than zero. */
  lemma IntervalReported(h: seq<Event>, now: int)
    ensures Unknown(h) ==> SinceLast(Expected(h), now) == None
    ensures forall t :: CountsFrom(h, t) ==> SinceLast(Expected(h), now) == Some(if now >= t then now - t else 0)
  {
    UnknownIs(h);
    forall t
      ensures CountsFrom(h, t) <==> LastInstant(h) == Some(t)
    {
      CountsFromIs(h, t);
    }
    hide Unknown;
    hide CountsFrom;
  }

  /** With `n` failures in a row an admission also keeps the `n`-th backoff step from every earlier one. */
  lemma BackoffHonoured(cfg: Config, h: seq<Event>, i: nat, j: nat)
    requires Legal(cfg, h) && i < j < |h| && h[i].Allowed? && h[j].Allowed?
    ensures var n, steps := Min(|InARow(h[..j])|, 0xFFFF_FFFF), cfg.failureBackoffSteps;
            n > 0 && steps != [] ==> h[j].at >= h[i].at + steps[if n <= |steps| then n - 1 else |steps| - 1]
  {
    LegalPrefix(cfg, h, j);
    LatestIsLatest(cfg, h[..j], i);
    AdmittedIff(cfg, h[..j], h[j].at);
    InARowCount(h[..j]);
    hide DeadlinesPassed;
    hide InARow;
    hide Permits;
    assert LegalAt(cfg, h, j);
  }

  /** Admissions with an instant in `[from, to]`. */
  ghost function AllowsWithin(h: seq<Event>, from: int, to: int): nat {
    if h == [] then 0
    else AllowsWithin(h[..|h| - 1], from, to) + if h[|h| - 1].Allowed? && from <= h[|h| - 1].at <= to then 1 else 0
  }

  lemma {:induction false} WindowStretch(cfg: Config, h: seq<Event>, from: int, to: int)
    requires Legal(cfg, h)
    ensures var n := AllowsWithin(h, from, to);
            n > 0 ==>
              && LatestAllow(h).Some?
              && from + (n - 1) * cfg.minInterval <= to
              && from + (n - 1) * cfg.minInterval <= LatestAllow(h).value
  {
    if h != [] {
      hide Legal;
      var k := |h| - 1;
      LegalPrefix(cfg, h, k);
      WindowStretch(cfg, h[..k], from, to);
      if h[k].Allowed? {
        AllowAfterLatest(cfg, h, k);
        var before := AllowsWithin(h[..k], from, to);
        assert before > 0 ==> before * cfg.minInterval == (before - 1) * cfg.minInterval + cfg.minInterval;
      }
    }
  }

  /** A closed window of length L holds at most floor(L / minInterval) + 1 admissions. */
  lemma WindowBound(cfg: Config, h: seq<Event>, from: int, length: nat)
    requires Legal(cfg, h) && cfg.minInterval > 0
    ensures AllowsWithin(h, from, from + length) <= length / cfg.minInterval + 1
  {
    WindowStretch(cfg, h, from, from + length);
    var n := AllowsWithin(h, from, from + length);
    if n > 0 {
      DivisionBound(n - 1, cfg.minInterval, length);
    }
  }

  lemma DivisionBound(n: nat, d: nat, length: nat)
    requires d > 0 && n * d <= length
    ensures n <= length / d
  {
    assert length == length / d * d + length % d;
    MulStep(length / d, n, d);
  }

  lemma MulStep(a: nat, b: nat, k: nat)
    ensures a < b ==> a * k + k <= b * k
  {
    if a < b {
      var c: nat := b - a - 1;
      assert (a + 1 + c) * k == a * k + k + c * k;
      assert c * k >= 0;
    }
  }

  /** A Retry-After deadline is pending until a success or an admission clears it. */
  lemma {:induction false} DeadlinePending(h: seq<Event>, i: nat)
    requires i < |h| && DeadlineOf(h[i]).Some?
    requires forall k :: i < k < |h| ==> !h[k].Allowed? && !h[k].Succeeded?
    ensures MaxDeadline(SinceReset(h)).Some?
    ensures MaxDeadline(SinceReset(h)).value >= DeadlineOf(h[i]).value
    ensures FirstFailure(h).Some?
  {
    var n := |h| - 1;
    var before, e := h[..n], h[n];
    assert before + [e] == h;
    Snoc(before, e);
    Snoc(SinceReset(before), e);
    FirstFailureSnoc(before, e);
    if i < n {
      DeadlinePending(before, i);
    }
  }

  lemma {:induction false} DeadlineHonoured(cfg: Config, h: seq<Event>, i: nat, j: nat)
    requires Legal(cfg, h) && i < j < |h| && DeadlineOf(h[i]).Some? && h[j].Allowed?
    requires forall k :: i < k < j ==> !h[k].Succeeded?
    ensures h[j].at >= DeadlineOf(h[i]).value
    decreases j
  {
    if k :| i < k < j && h[k].Allowed? {
      DeadlineHonoured(cfg, h, i, k);
      AllowsSpaced(cfg, h, k, j);
    } else {
      DeadlinePending(h[..j], i);
      hide SinceReset;
      hide MaxDeadline;
      hide AllowAt;
      assert LegalAt(cfg, h, j);
    }
  }

  /** No admission falls before `t + N` seconds when a 5xx with Retry-After `N` was recorded earlier at
      `t`, unless a success was recorded in between. */
  lemma RetryAfterHonoured(cfg: Config, h: seq<Event>, i: nat, j: nat)
    requires Legal(cfg, h) && i < j < |h| && h[j].Allowed?
    requires h[i].Failed? && 500 <= h[i].status < 600 && h[i].retryAfterSecs.Some?
    requires forall k :: i < k < j ==> !h[k].Succeeded?
    ensures h[j].at >= h[i].at + h[i].retryAfterSecs.value * 1_000_000_000
  {
    DeadlineHonoured(cfg, h, i, j);
  }

  lemma {:induction false} DenialsChangeNothing(h: seq<Event>, i: nat)
    requires i <= |h| && forall k :: i <= k < |h| ==> h[k].Denied?
    ensures Expected(h) == Expected(h[..i])
  {
    if i == |h| {
      assert h[..i] == h;
    } else {
      var n := |h| - 1;
      DenialsChangeNothing(h[..n], i);
      assert h[..n][..i] == h[..i];
      assert h == h[..n] + [Denied(h[n].at, h[n].retryAfter)];
      ExpectedDenied(h[..n], h[n].at, h[n].retryAfter);
    }
  }

  /** The Retry-After of a denial at `t` is a whole number of seconds, at least one. With nothing but
      further denials since, a check at `t + r` or later is admitted and one at `t + r - 1 s` or
      earlier is denied. */
  lemma RetryPromise(cfg: Config, h: seq<Event>, i: nat, now: int)
    requires Legal(cfg, h) && i < |h| && forall k :: i <= k < |h| ==> h[k].Denied?
    ensures h[i].retryAfter % 1_000_000_000 == 0 && h[i].retryAfter >= 1_000_000_000
    ensures now >= h[i].at + h[i].retryAfter ==> Permits(cfg, Expected(h), now)
    ensures now <= h[i].at + h[i].retryAfter - 1_000_000_000 ==> !Permits(cfg, Expected(h), now)
  {
    hide RoundUpSecs;
    hide AllowAt;
    hide Expected;
    DenialsChangeNothing(h, i);
    assert LegalAt(cfg, h, i);
  }
}
