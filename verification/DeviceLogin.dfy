/** Device-code login: the polling loop (section 3.5 of RFC 8628) and the set of active attempts
    (src/application/authentication/authorized-provider-login.ts). */
module DeviceLogin {
  import opened Foundation

  const MAX_ACTIVE_AUTHORIZATIONS: int := 8
  const MAX_AUTHORIZATION_LIFETIME_MS: int := 600_000
  const MAX_DEVICE_POLL_INTERVAL_MS: int := 60_000

  function Min(a: int, b: int): int { if a < b then a else b }

  function Max(a: int, b: int): int { if a < b then b else a }

  // ---- The polling loop ----

  /** A usable interval: within bounds, and at least one millisecond. */
  function PollInterval(value: int): (interval: Option<int>)
    ensures interval.Some? <==> 0 <= value <= MAX_DEVICE_POLL_INTERVAL_MS
    ensures interval.Some? ==> interval.value == (if value == 0 then 1 else value)
  {
    if value < 0 || value > MAX_DEVICE_POLL_INTERVAL_MS then None else Some(Max(1, value))
  }

  function Deadline(startedAt: int, requestMs: int): int {
    startedAt + Min(requestMs, MAX_AUTHORIZATION_LIFETIME_MS)
  }

  datatype Answer = Pending(retryAfterMs: Option<int>) | SlowDown(slowDownMs: int) | Settled(outcome: string)

  /** What the environment does in one round: the clock readings around the wait and the poll,
      whether the signal is aborted, and the provider's answer. */
  datatype Round = Round(
    abortedBefore: bool,
    checkedAt: int,
    waitingFrom: int,
    abortedWaiting: bool,
    wokeAt: int,
    answer: Answer,
    answeredAt: int)

  type World = nat -> Round

  /** The interval an answer leaves in force; None when it is not usable. */
  function NextInterval(interval: int, answer: Answer): Option<int> {
    match answer
    case Pending(retry) => if retry.None? then Some(interval) else PollInterval(retry.value)
    case SlowDown(ms) => PollInterval(ms)
    case Settled(_) => Some(interval)
  }

  /** The interval in force in round `n`. */
  function IntervalAt(world: World, initial: int, n: nat): int {
    if n == 0 then initial
    else
      var previous := IntervalAt(world, initial, n - 1);
      var next := NextInterval(previous, world(n - 1).answer);
      if next.Some? then next.value else previous
  }

  /** What the clock port promises of round `n`: a wait that is not aborted has reached its instant. */
  ghost predicate WaitsOut(world: World, initial: int, limit: int, n: nat) {
    !world(n).abortedWaiting ==> world(n).wokeAt >= Min(world(n).waitingFrom + IntervalAt(world, initial, n), limit)
  }

  /** How far a later clock reading falls below an earlier one. */
  function Fall(earlier: int, later: int): nat { if later < earlier then earlier - later else 0 }

  /** How far the clock is set back in round `n`, up to the first reading of the next one. */
  function RoundFall(world: World, n: nat): nat {
    var round := world(n);
    Fall(round.checkedAt, round.waitingFrom) + Fall(round.waitingFrom, round.wokeAt)
    + Fall(round.wokeAt, round.answeredAt) + Fall(round.answeredAt, world(n + 1).checkedAt)
  }

  /** How far the clock is set back in the first `n` rounds together. */
  function SetBack(world: World, n: nat): nat {
    if n == 0 then 0 else SetBack(world, n - 1) + RoundFall(world, n - 1)
  }

  /** Waits are waited out, and the clock is never set back by more than `setBack` in total. */
  ghost predicate HonestClock(world: World, initial: int, limit: int, setBack: nat) {
    forall n: nat :: WaitsOut(world, initial, limit, n) && SetBack(world, n) <= setBack
  }

  datatype Poll = Poll(at: int, answeredAt: int, interval: int)

  datatype Exchange = Expired | Cancelled | InvalidAnswer | Finished(outcome: string)

  /** Polls stay before the limit; each one waits out the interval in force, counted from the answer
      to the one before it (or from the start), but for what the clock was set back. */
  ghost predicate WellSpaced(polls: seq<Poll>, start: int, initial: int, limit: int, setBack: nat) {
    && (forall i | 0 <= i < |polls| :: polls[i].at < limit && polls[i].interval >= 1)
    && (polls != [] ==> polls[0].interval == initial && polls[0].at + setBack >= start + initial)
    && (forall i | 0 < i < |polls| :: polls[i].at + setBack >= polls[i - 1].answeredAt + polls[i].interval)
  }

  /** How a round ends the loop before it has polled; None lets it poll. */
  function BeforePoll(round: Round, limit: int): Option<Exchange> {
    if round.abortedBefore then Some(Cancelled)
    else if round.checkedAt >= limit then Some(Expired)
    else if round.abortedWaiting then Some(Cancelled)
    else if round.wokeAt >= limit then Some(Expired)
    else None
  }

  /** How an answer ends the loop; None goes on. */
  function AfterPoll(interval: int, answer: Answer): Option<Exchange> {
    if answer.Settled? then Some(Finished(answer.outcome))
    else if NextInterval(interval, answer).None? then Some(InvalidAnswer)
    else None
  }

  /** The poll of a round that lets the loop poll, hence before the limit. */
  ghost predicate PollsAt(round: Round, limit: int, poll: Poll) {
    && BeforePoll(round, limit).None? && poll.interval >= 1
    && poll.at == round.wokeAt < limit && poll.answeredAt == round.answeredAt
  }

  /** The loop goes on after `poll` was answered, with `next` as the interval in force. */
  ghost predicate GoesOn(poll: Poll, answer: Answer, next: int) {
    AfterPoll(poll.interval, answer).None? && NextInterval(poll.interval, answer) == Some(next)
  }

  /** The polls of the first rounds: each made before its limit, and each but the first with the
      interval that the answer before it left in force. */
  ghost predicate Polled(world: World, initial: int, limit: int, polls: seq<Poll>) {
    && (polls != [] ==> polls[0].interval == initial)
    && (forall i | 0 <= i < |polls| :: PollsAt(world(i), limit, polls[i]))
    && (forall i | 0 < i < |polls| :: GoesOn(polls[i - 1], world(i - 1).answer, polls[i].interval))
  }

  /** The loop is still running, with `interval` in force. */
  ghost predicate Running(world: World, initial: int, limit: int, polls: seq<Poll>, interval: int) {
    && Polled(world, initial, limit, polls) && interval >= 1
    && (if polls == [] then interval == initial else GoesOn(polls[|polls| - 1], world(|polls| - 1).answer, interval))
  }

  /** The loop has ended, in the first round that ends it. */
  ghost predicate Ended(world: World, initial: int, limit: int, polls: seq<Poll>, exchange: Exchange) {
    && Polled(world, initial, limit, polls)
    && (|| (BeforePoll(world(|polls|), limit) == Some(exchange) && exists interval :: Running(world, initial, limit, polls, interval))
        || (polls != [] && AfterPoll(polls[|polls| - 1].interval, world(|polls| - 1).answer) == Some(exchange)))
  }

  lemma OnePollMore(world: World, initial: int, limit: int, polls: seq<Poll>, interval: int)
    requires Running(world, initial, limit, polls, interval) && BeforePoll(world(|polls|), limit).None?
    ensures Polled(world, initial, limit, polls + [Poll(world(|polls|).wokeAt, world(|polls|).answeredAt, interval)])
  {
  }

  /** The first `rounds` rounds of the polling loop, whatever the clock does: every poll is made
      before the limit, and the loop ends in the first round that ends it. */
  method PollRounds(world: World, initial: int, expiresAt: int, deadline: int, rounds: nat)
    returns (exchange: Option<Exchange>, polls: seq<Poll>)
    requires initial >= 1
    ensures Polled(world, initial, Min(expiresAt, deadline), polls)
    ensures exchange.Some? ==> Ended(world, initial, Min(expiresAt, deadline), polls, exchange.value)
    ensures exchange.None? ==> |polls| == rounds && exists interval :: Running(world, initial, Min(expiresAt, deadline), polls, interval)
  {
    exchange, polls := None, [];
    var interval, limit := initial, Min(expiresAt, deadline);
    for n := 0 to rounds
      invariant |polls| == n && Running(world, initial, limit, polls, interval)
    {
      var round := world(n);
      exchange := BeforePoll(round, limit);
      if exchange.Some? {
        return;
      }
      OnePollMore(world, initial, limit, polls, interval);
      polls := polls + [Poll(round.wokeAt, round.answeredAt, interval)];
      exchange := AfterPoll(interval, round.answer);
      if exchange.Some? {
        return;
      }
      interval := NextInterval(interval, round.answer).value;
    }
    exchange := None;
  }

  /** What each way of ending the loop means for the last round. */
  lemma EndsExactly(world: World, initial: int, limit: int, polls: seq<Poll>, exchange: Exchange)
    requires Ended(world, initial, limit, polls, exchange)
    ensures var (n, answered) := (|polls|, if polls == [] then None else Some(world(|polls| - 1).answer));
      match exchange
      case Cancelled => world(n).abortedBefore || (world(n).checkedAt < limit && world(n).abortedWaiting)
      case Expired => !world(n).abortedBefore && (world(n).checkedAt >= limit || (!world(n).abortedWaiting && world(n).wokeAt >= limit))
      case InvalidAnswer =>
        answered.Some? && Named(answered.value).Some? && !(0 <= Named(answered.value).value <= MAX_DEVICE_POLL_INTERVAL_MS)
      case Finished(outcome) => answered == Some(Settled(outcome))
  {
  }

  /** An outcome that answers a poll ends the loop with that outcome, and an unusable interval ends it too. */
  lemma AnswerEndsExactly(interval: int, answer: Answer)
    ensures AfterPoll(interval, answer).None? <==>
      !answer.Settled? && (Named(answer).Some? ==> 0 <= Named(answer).value <= MAX_DEVICE_POLL_INTERVAL_MS)
    ensures answer.Settled? ==> AfterPoll(interval, answer) == Some(Finished(answer.outcome))
    ensures AfterPoll(interval, answer).None? ==>
      NextInterval(interval, answer)
      == Some(if Named(answer).None? then interval else if Named(answer).value == 0 then 1 else Named(answer).value)
  {
  }

  /** A round polls exactly when it is not aborted and both of its clock readings are before the limit. */
  lemma RoundPollsExactly(round: Round, limit: int)
    ensures BeforePoll(round, limit).None? <==>
      !round.abortedBefore && !round.abortedWaiting && round.checkedAt < limit && round.wokeAt < limit
  {
  }

  /** The interval of each poll is the one in force in its round. */
  lemma {:induction false} PollKeepsInterval(world: World, initial: int, limit: int, polls: seq<Poll>, i: nat)
    requires Polled(world, initial, limit, polls) && i < |polls|
    ensures polls[i].interval == IntervalAt(world, initial, i)
  {
    if i > 0 {
      PollKeepsInterval(world, initial, limit, polls, i - 1);
      assert GoesOn(polls[i - 1], world(i - 1).answer, polls[i].interval);
    }
  }

  /** Every poll waits out its interval after the answer before it, but for the set-back in between. */
  lemma PollWaits(world: World, initial: int, limit: int, polls: seq<Poll>, i: nat)
    requires Polled(world, initial, limit, polls) && i < |polls| && WaitsOut(world, initial, limit, i)
    ensures polls[i].at >= world(i).waitingFrom + polls[i].interval
    ensures polls[i].at + RoundFall(world, i) >= world(i).checkedAt + polls[i].interval
    ensures i > 0 ==> polls[i].at + RoundFall(world, i - 1) + RoundFall(world, i) >= polls[i - 1].answeredAt + polls[i].interval
  {
    PollKeepsInterval(world, initial, limit, polls, i);
    assert PollsAt(world(i), limit, polls[i]);
    if i > 0 { assert PollsAt(world(i - 1), limit, polls[i - 1]); }
  }

  /** With every round that polls the clock gains a millisecond, but for what it was set back. */
  lemma {:induction false} RoundsAdvance(world: World, initial: int, limit: int, polls: seq<Poll>, n: nat)
    requires Polled(world, initial, limit, polls) && n <= |polls| && forall k: nat :: WaitsOut(world, initial, limit, k)
    ensures world(n).checkedAt + SetBack(world, n) >= world(0).checkedAt + n
  {
    if n > 0 {
      RoundsAdvance(world, initial, limit, polls, n - 1);
      PollWaits(world, initial, limit, polls, n - 1);
      assert PollsAt(world(n - 1), limit, polls[n - 1]);
    }
  }

  /** Whatever the clock does, there are fewer polls than milliseconds left at the start and
      milliseconds set back together. */
  lemma PollsWithin(world: World, initial: int, limit: int, polls: seq<Poll>)
    requires Polled(world, initial, limit, polls) && polls != [] && forall k: nat :: WaitsOut(world, initial, limit, k)
    ensures |polls| < limit - world(0).checkedAt + SetBack(world, |polls|)
  {
    var n := |polls| - 1;
    RoundsAdvance(world, initial, limit, polls, n);
    PollWaits(world, initial, limit, polls, n);
    assert PollsAt(world(n), limit, polls[n]);
  }

  /** In an honest world the polls are well spaced. */
  lemma HonestPolls(world: World, initial: int, limit: int, setBack: nat, polls: seq<Poll>)
    requires HonestClock(world, initial, limit, setBack) && Polled(world, initial, limit, polls)
    ensures WellSpaced(polls, world(0).checkedAt, initial, limit, setBack)
    ensures polls != [] ==> |polls| < limit - world(0).checkedAt + setBack
  {
    forall i | 0 < i < |polls| ensures polls[i].at + setBack >= polls[i - 1].answeredAt + polls[i].interval {
      PollWaits(world, initial, limit, polls, i);
      TwoFalls(world, i, setBack);
    }
    assert forall i | 0 <= i < |polls| :: PollsAt(world(i), limit, polls[i]);
    if polls != [] {
      PollWaits(world, initial, limit, polls, 0);
      assert SetBack(world, 1) == RoundFall(world, 0);
      PollsWithin(world, initial, limit, polls);
      assert SetBack(world, |polls|) <= setBack;
    }
  }

  lemma TwoFalls(world: World, i: nat, setBack: nat)
    requires i > 0 && SetBack(world, i + 1) <= setBack
    ensures RoundFall(world, i - 1) + RoundFall(world, i) <= setBack
  {
    assert SetBack(world, i + 1) == SetBack(world, i - 1) + RoundFall(world, i - 1) + RoundFall(world, i);
  }

  /** The loop ends by itself whenever the total set-back of the clock is bounded, and polls only in
      time and well spaced. With a clock that is never set back, `setBack` is 0. */
  method RunDeviceCode(world: World, initial: int, expiresAt: int, deadline: int, setBack: nat)
    returns (exchange: Exchange, polls: seq<Poll>)
    requires initial >= 1 && HonestClock(world, initial, Min(expiresAt, deadline), setBack)
    ensures Ended(world, initial, Min(expiresAt, deadline), polls, exchange)
    ensures WellSpaced(polls, world(0).checkedAt, initial, Min(expiresAt, deadline), setBack)
    ensures polls != [] ==> |polls| < Min(expiresAt, deadline) - world(0).checkedAt + setBack
  {
    var limit := Min(expiresAt, deadline);
    var ended: Option<Exchange>;
    ended, polls := PollRounds(world, initial, expiresAt, deadline, Max(1, limit - world(0).checkedAt + setBack));
    HonestPolls(world, initial, limit, setBack, polls);
    exchange := ended.value;
  }

  /** A whole attempt, from its start: it never polls at or after its own deadline, and less than
      once per millisecond of its lifetime and of set-back, so less than 600 000 times with a clock
      that is never set back. */
  method AttemptDeviceCode(world: World, startedAt: int, requestMs: int, pollIntervalMs: int, expiresAt: int, setBack: nat)
    returns (exchange: Option<Exchange>, polls: seq<Poll>)
    requires Fall(startedAt, world(0).checkedAt) <= setBack
    requires PollInterval(pollIntervalMs).Some? ==>
      HonestClock(world, PollInterval(pollIntervalMs).value, Min(expiresAt, Deadline(startedAt, requestMs)),
                  setBack - Fall(startedAt, world(0).checkedAt))
    ensures exchange.None? <==> PollInterval(pollIntervalMs).None?
    ensures exchange.None? ==> polls == []
    ensures forall i | 0 <= i < |polls| :: polls[i].at < Min(expiresAt, startedAt + Min(requestMs, MAX_AUTHORIZATION_LIFETIME_MS))
    ensures exchange.Some? ==>
      Ended(world, if pollIntervalMs == 0 then 1 else pollIntervalMs,
            Min(expiresAt, startedAt + Min(requestMs, MAX_AUTHORIZATION_LIFETIME_MS)), polls, exchange.value)
    ensures polls != [] ==> |polls| < requestMs + setBack && |polls| < MAX_AUTHORIZATION_LIFETIME_MS + setBack
  {
    var initial := PollInterval(pollIntervalMs);
    if initial.None? {
      return None, [];
    }
    var ended: Exchange;
    ended, polls := RunDeviceCode(world, initial.value, expiresAt, Deadline(startedAt, requestMs),
                                  setBack - Fall(startedAt, world(0).checkedAt));
    exchange := Some(ended);
  }

  // ---- How much set-back the loop survives ----

  /** The clock advances a millisecond a round until just before the limit; from then on it is set
      back by one millisecond in every round, between two readings. */
  function LateClock(start: int, limit: int): World {
    n => if n < limit - start - 1
         then Round(false, start + n, start + n, false, start + n + 1, Pending(None), start + n + 1)
         else Round(false, limit - 1, limit - 2, false, limit - 1, Pending(None), limit - 1)
  }

  lemma {:induction false} LateClockSetBack(start: int, limit: int, n: nat)
    requires start < limit
    ensures SetBack(LateClock(start, limit), n) == Max(0, n - (limit - start - 1))
  {
    if n > 0 { LateClockSetBack(start, limit, n - 1); }
  }

  /** That clock waits out every wait, and yet the loop polls round after round and never ends. */
  lemma SetBackClockPollsForever(start: int, limit: int, n: nat)
    requires start < limit
    ensures var world := LateClock(start, limit);
      && world(0).checkedAt == start && (forall k: nat :: WaitsOut(world, 1, limit, k))
      && SetBack(world, n) == Max(0, n - (limit - start - 1))
      && exists polls :: |polls| == n && Running(world, 1, limit, polls, 1)
  {
    var world := LateClock(start, limit);
    LateClockSetBack(start, limit, n);
    forall k: nat ensures WaitsOut(world, 1, limit, k) { SteadyInterval(world, 1, k); }
    var polls := LateClockPolls(start, limit, n);
  }

  lemma {:induction false} LateClockPolls(start: int, limit: int, n: nat) returns (polls: seq<Poll>)
    requires start < limit
    ensures |polls| == n && Running(LateClock(start, limit), 1, limit, polls, 1)
  {
    if n == 0 {
      polls := [];
    } else {
      polls := LateClockPolls(start, limit, n - 1);
      var round := LateClock(start, limit)(n - 1);
      OnePollMore(LateClock(start, limit), 1, limit, polls, 1);
      polls := polls + [Poll(round.wokeAt, round.answeredAt, 1)];
    }
  }

  /** Some clock that waits out its waits and is set back by no more than `setBack` in `n` rounds
      lets the loop poll `n` times. */
  ghost predicate CanPoll(start: int, limit: int, n: nat, setBack: nat) {
    exists world: World, initial: int, polls: seq<Poll> :: PollsUnder(world, initial, start, limit, polls, n, setBack)
  }

  ghost predicate PollsUnder(world: World, initial: int, start: int, limit: int, polls: seq<Poll>, n: nat, setBack: nat) {
    && initial >= 1 && world(0).checkedAt == start && (forall k: nat :: WaitsOut(world, initial, limit, k))
    && |polls| == n && SetBack(world, n) <= setBack && Polled(world, initial, limit, polls)
  }

  /** Exactly how much set-back the loop survives: it can reach an n-th poll iff n is less than the
      milliseconds left at its start and the milliseconds of set-back together. */
  lemma SurvivesExactly(start: int, limit: int, n: nat, setBack: nat)
    requires start < limit && n > 0
    ensures CanPoll(start, limit, n, setBack) <==> n < limit - start + setBack
  {
    if CanPoll(start, limit, n, setBack) {
      var world, initial, polls :| PollsUnder(world, initial, start, limit, polls, n, setBack);
      PollsWithin(world, initial, limit, polls);
    }
    if n < limit - start + setBack {
      SetBackClockPollsForever(start, limit, n);
      var polls :| |polls| == n && Running(LateClock(start, limit), 1, limit, polls, 1);
      assert PollsUnder(LateClock(start, limit), 1, start, limit, polls, n, setBack);
    }
  }

  lemma {:induction false} SteadyInterval(world: World, initial: int, n: nat)
    requires forall k: nat :: world(k).answer == Pending(None)
    ensures IntervalAt(world, initial, n) == initial
  {
    if n > 0 { SteadyInterval(world, initial, n - 1); }
  }

  // ---- Slow-down ----

  /** The interval that an answer names. */
  function Named(answer: Answer): Option<int> {
    match answer
    case Pending(retry) => retry
    case SlowDown(ms) => Some(ms)
    case Settled(_) => None
  }

  /** The answer names a usable interval of at least `floor`. */
  predicate Raises(answer: Answer, floor: int) {
    Named(answer).Some? && floor <= Named(answer).value <= MAX_DEVICE_POLL_INTERVAL_MS
  }

  /** The answer names a usable interval below `floor`. */
  predicate Lowers(answer: Answer, floor: int) {
    Named(answer).Some? && 0 <= Named(answer).value < floor && Named(answer).value <= MAX_DEVICE_POLL_INTERVAL_MS
  }

  /** No answer strictly between rounds `n` and `m` names a usable interval below `floor`. */
  ghost predicate NeverLowered(world: World, n: nat, m: nat, floor: int) {
    forall k | n < k < m :: !Lowers(world(k).answer, floor)
  }

  /** In every round after `n`, up to `m`, the interval in force is at least `floor`. */
  ghost predicate StaysAbove(world: World, initial: int, n: nat, m: nat, floor: int) {
    forall k: nat | n < k <= m :: IntervalAt(world, initial, k) >= floor
  }

  lemma IntervalStep(world: World, initial: int, n: nat, floor: int)
    requires initial >= 1 && floor >= 2
    ensures IntervalAt(world, initial, n + 1) >= floor <==>
      Raises(world(n).answer, floor) || (IntervalAt(world, initial, n) >= floor && !Lowers(world(n).answer, floor))
  {
  }

  /** Section 3.5 of RFC 8628 asks that a slow-down lengthen the interval for this and all later
      polls. From a slow-down in round `n` on, every poll up to round `m` waits at least `floor`,
      longer than before, iff the slow-down itself names at least that much and no later answer
      names less. */
  lemma {:induction false} SlowDownLastsExactly(world: World, initial: int, n: nat, m: nat, floor: int)
    requires initial >= 1 && world(n).answer.SlowDown? && n < m && floor > IntervalAt(world, initial, n)
    ensures StaysAbove(world, initial, n, m, floor) <==>
      Raises(world(n).answer, floor) && NeverLowered(world, n, m, floor)
    decreases m
  {
    IntervalPositive(world, initial, n);
    IntervalStep(world, initial, m - 1, floor);
    if m > n + 1 {
      SlowDownLastsExactly(world, initial, n, m - 1, floor);
    }
  }

  lemma {:induction false} IntervalPositive(world: World, initial: int, n: nat)
    requires initial >= 1
    ensures IntervalAt(world, initial, n) >= 1
  {
    if n > 0 { IntervalPositive(world, initial, n - 1); }
  }

  /** The same on the polls that a run makes: all polls after poll `n` wait at least `floor` iff the
      slow-down that answered it names at least that much and no later answer names less. */
  lemma SlowDownHonouredExactly(world: World, initial: int, limit: int, polls: seq<Poll>, n: nat, floor: int)
    requires initial >= 1 && Polled(world, initial, limit, polls)
    requires n + 1 < |polls| && world(n).answer.SlowDown? && floor > polls[n].interval
    ensures (forall k | n < k < |polls| :: polls[k].interval >= floor) <==>
      Raises(world(n).answer, floor) && NeverLowered(world, n, |polls| - 1, floor)
  {
    forall k | 0 <= k < |polls| ensures polls[k].interval == IntervalAt(world, initial, k) {
      PollKeepsInterval(world, initial, limit, polls, k);
    }
    SlowDownLastsExactly(world, initial, n, |polls| - 1, floor);
    if !StaysAbove(world, initial, n, |polls| - 1, floor) {
      var k :| n < k <= |polls| - 1 && IntervalAt(world, initial, k) < floor;
      assert polls[k].interval < floor;
    }
  }

  /** A slow-down can shorten the interval at once, and a later answer can undo one that lengthened
      it: an honest world with polls every 5 s, a slow-down to 10 s, a pending answer naming 1 s,
      and a slow-down to 200 ms. */
  lemma SlowDownNotHonoured() returns (world: World)
    ensures HonestClock(world, 5000, 600_000, 0) && forall n: nat | n < 4 :: BeforePoll(world(n), 600_000).None?
    ensures world(0).answer == SlowDown(10_000) && world(2).answer == SlowDown(200)
    ensures IntervalAt(world, 5000, 1) == 10_000 && IntervalAt(world, 5000, 2) < IntervalAt(world, 5000, 0)
    ensures IntervalAt(world, 5000, 3) < IntervalAt(world, 5000, 2)
  {
    world := n => Round(false, 20_000 * n, 20_000 * n, false, 20_000 * n + 10_000,
      if n == 0 then SlowDown(10_000) else if n == 1 then Pending(Some(1000)) else SlowDown(200), 20_000 * n + 10_001);
    assert IntervalAt(world, 5000, 0) == 5000 && IntervalAt(world, 5000, 1) == 10_000;
    assert IntervalAt(world, 5000, 2) == 1000 && IntervalAt(world, 5000, 3) == 200;
    forall n: nat ensures WaitsOut(world, 5000, 600_000, n) && SetBack(world, n) == 0 {
      ShortIntervals(world, 5000, n);
      NeverSetBack(world, n);
    }
  }

  lemma {:induction false} NeverSetBack(world: World, n: nat)
    requires forall k: nat :: RoundFall(world, k) == 0
    ensures SetBack(world, n) == 0
  {
    if n > 0 { NeverSetBack(world, n - 1); }
  }

  lemma {:induction false} ShortIntervals(world: World, initial: int, n: nat)
    requires 1 <= initial <= 10_000
    requires forall k: nat :: Named(world(k).answer).Some? ==> Named(world(k).answer).value <= 10_000
    ensures IntervalAt(world, initial, n) <= 10_000
  {
    if n > 0 { ShortIntervals(world, initial, n - 1); }
  }

  // ---- Active attempts ----

  function MaxActive(configured: Option<int>): (limit: int)
    ensures 1 <= limit <= MAX_ACTIVE_AUTHORIZATIONS
    ensures configured.None? ==> limit == MAX_ACTIVE_AUTHORIZATIONS
    ensures configured.Some? && 1 <= configured.value <= MAX_ACTIVE_AUTHORIZATIONS ==> limit == configured.value
  {
    Max(1, Min(if configured.Some? then configured.value else MAX_ACTIVE_AUTHORIZATIONS, MAX_ACTIVE_AUTHORIZATIONS))
  }

  /** The profiles with an attempt under way, as the login service keeps them. */
  class LoginGate {
    const limit: int
    var activeProfiles: set<string>

    constructor (configured: Option<int>)
      ensures limit == MaxActive(configured) && activeProfiles == {}
    {
      limit := MaxActive(configured);
      activeProfiles := {};
    }

    /** Up to the first await of `authorize`. */
    method Begin(profile: string, resolvable: bool) returns (admitted: bool)
      modifies this
      ensures admitted == Admits(old(activeProfiles), limit, profile, resolvable)
      ensures activeProfiles == if admitted then old(activeProfiles) + {profile} else old(activeProfiles)
    {
      if profile in activeProfiles || |activeProfiles| >= limit {
        return false;
      }
      if !resolvable {
        return false;
      }
      activeProfiles := activeProfiles + {profile};
      return true;
    }

    method End(profile: string)
      modifies this
      ensures activeProfiles == old(activeProfiles) - {profile}
    {
      activeProfiles := activeProfiles - {profile};
    }
  }

  predicate Admits(active: set<string>, limit: int, profile: string, resolvable: bool) {
    profile !in active && |active| < limit && resolvable
  }

  /** The gate together with the attempts under way. */
  datatype Gate = Gate(active: set<string>, attempts: map<nat, string>)

  datatype GateMove = Authorize(call: nat, profile: string, resolvable: bool) | Settle(call: nat)

  ghost predicate GateStep(limit: int, s: Gate, move: GateMove, t: Gate) {
    match move
    case Authorize(call, profile, resolvable) =>
      && call !in s.attempts
      && t == if Admits(s.active, limit, profile, resolvable)
              then Gate(s.active + {profile}, s.attempts[call := profile])
              else s
    case Settle(call) => call in s.attempts && t == Gate(s.active - {s.attempts[call]}, s.attempts - {call})
  }

  ghost predicate GateExecution(limit: int, states: seq<Gate>, moves: seq<GateMove>) {
    && |states| == |moves| + 1 && states[0] == Gate({}, map[])
    && (forall i | 0 <= i < |moves| :: GateStep(limit, states[i], moves[i], states[i + 1]))
  }

  ghost function ProfilesOf(attempts: map<nat, string>): set<string> {
    set c | c in attempts :: attempts[c]
  }

  /** The active set is exactly the profiles of the attempts under way, no two of which share one. */
  ghost predicate GateInvariant(limit: int, s: Gate) {
    && s.active == ProfilesOf(s.attempts) && |s.attempts| == |s.active| <= limit
    && (forall c, d | c in s.attempts && d in s.attempts && s.attempts[c] == s.attempts[d] :: c == d)
  }

  lemma ProfilesWith(attempts: map<nat, string>, call: nat, profile: string)
    requires call !in attempts
    ensures ProfilesOf(attempts[call := profile]) == ProfilesOf(attempts) + {profile}
  {
    var more := attempts[call := profile];
    assert more[call] == profile;
    forall c | c in attempts ensures attempts[c] in ProfilesOf(more) {
      assert more[c] == attempts[c];
    }
  }

  lemma CountWith(attempts: map<nat, string>, call: nat, profile: string)
    requires call !in attempts
    ensures |attempts[call := profile]| == |attempts| + 1
  {
    var more := attempts[call := profile];
    assert more.Keys == attempts.Keys + {call} && |more.Keys| == |more| && |attempts.Keys| == |attempts|;
  }

  lemma Admitted(limit: int, s: Gate, call: nat, profile: string)
    requires GateInvariant(limit, s) && call !in s.attempts && profile !in s.active && |s.active| < limit
    ensures GateInvariant(limit, Gate(s.active + {profile}, s.attempts[call := profile]))
  {
    ProfilesWith(s.attempts, call, profile);
    CountWith(s.attempts, call, profile);
    ApartWith(s.attempts, call, profile);
  }

  lemma ApartWith(attempts: map<nat, string>, call: nat, profile: string)
    requires call !in attempts && profile !in ProfilesOf(attempts)
    requires forall c, d | c in attempts && d in attempts && attempts[c] == attempts[d] :: c == d
    ensures var more := attempts[call := profile];
      forall c, d | c in more && d in more && more[c] == more[d] :: c == d
  {
    assert forall c | c in attempts :: attempts[c] in ProfilesOf(attempts);
  }

  lemma Released(limit: int, s: Gate, call: nat)
    requires GateInvariant(limit, s) && call in s.attempts
    ensures GateInvariant(limit, Gate(s.active - {s.attempts[call]}, s.attempts - {call}))
  {
    var less := s.attempts - {call};
    assert s.attempts[call] in s.active;
    forall p | p in s.active - {s.attempts[call]} ensures p in ProfilesOf(less) {
      var c :| c in s.attempts && s.attempts[c] == p;
      assert less[c] == p;
    }
    assert ProfilesOf(less) == s.active - {s.attempts[call]};
    assert less.Keys == s.attempts.Keys - {call} && |less.Keys| == |less| && |s.attempts.Keys| == |s.attempts|;
  }

  lemma GateStepInvariant(limit: int, s: Gate, move: GateMove, t: Gate)
    requires GateInvariant(limit, s) && GateStep(limit, s, move, t)
    ensures GateInvariant(limit, t)
  {
    match move
    case Authorize(call, profile, resolvable) =>
      if Admits(s.active, limit, profile, resolvable) { Admitted(limit, s, call, profile); }
    case Settle(call) => Released(limit, s, call);
  }

  lemma {:induction false} GateSafe(limit: int, states: seq<Gate>, moves: seq<GateMove>, i: nat)
    requires limit >= 0 && GateExecution(limit, states, moves) && i < |states|
    ensures GateInvariant(limit, states[i])
  {
    if i > 0 {
      GateSafe(limit, states, moves, i - 1);
      GateStepInvariant(limit, states[i - 1], moves[i - 1], states[i]);
    }
  }

  /** In every interleaving at most eight attempts are under way, and never two for one profile. */
  lemma AttemptsAreBounded(configured: Option<int>, states: seq<Gate>, moves: seq<GateMove>, i: nat)
    requires GateExecution(MaxActive(configured), states, moves) && i < |states|
    ensures GateInvariant(MaxActive(configured), states[i]) && |states[i].attempts| <= MAX_ACTIVE_AUTHORIZATIONS
  {
    GateSafe(MaxActive(configured), states, moves, i);
  }
}
