/** src/due_queue.rs as a state machine: what the queue holds, what may happen to it, and which job a
    pop has to answer with. The class in DueQueue.dfy is proved to make exactly these steps. */
module Scheduling {
  import opened Basics

  datatype JobKind = Sync | Plan
  datatype Cause = Explicit | Timer | Sweep
  datatype Job = Job(pair: nat, kind: JobKind, cause: Cause)

  /** Instants and durations in nanoseconds; the largest instant the platform clock represents. */
  const INSTANT_MAX: nat := 0x7FFF_FFFF_FFFF_FFFF * NANOS + 999_999_999
  const FAR_FUTURE: nat := 86_400 * 365 * 30 * NANOS

  function Later(at: nat, span: nat): (r: nat)
    ensures span > 0 ==> r > at
  {
    if at + span <= INSTANT_MAX then at + span else at + FAR_FUTURE
  }

  datatype State = State(
    nextDue: seq<nat>,
    cadence: seq<nat>,
    sweepAt: seq<Option<nat>>,
    explicit: seq<(nat, JobKind)>,
    cursor: nat)
  {
    function Pairs(): nat { |nextDue| }

    predicate Shaped() {
      && Pairs() > 0
      && |cadence| == Pairs()
      && |sweepAt| == Pairs()
      && cursor < Pairs()
      && (forall p :: 0 <= p < Pairs() ==> cadence[p] > 0)
      && (forall k :: 0 <= k < |explicit| ==> explicit[k].0 < Pairs())
    }

    /** At most one queued copy of each request. */
    ghost predicate NoRepeats() {
      forall i, j :: 0 <= i < j < |explicit| ==> explicit[i] != explicit[j]
    }

    ghost predicate Valid() { Shaped() && NoRepeats() }

    /** THE due rule: the earlier of the timer and the sweep. */
    function Deadline(p: nat): nat
      requires Shaped() && p < Pairs()
    {
      match sweepAt[p]
      case Some(sweep) => if sweep < nextDue[p] then sweep else nextDue[p]
      case None => nextDue[p]
    }

    predicate IsDue(p: nat, now: nat)
      requires Shaped() && p < Pairs()
    {
      Deadline(p) <= now
    }

    predicate SweepOverdue(p: nat, now: nat)
      requires Shaped() && p < Pairs()
    {
      sweepAt[p].Some? && sweepAt[p].value <= now
    }

    /** How far round the ring from the cursor a pair sits. */
    function Distance(p: nat): nat
      requires Shaped() && p < Pairs()
    {
      if cursor <= p then p - cursor else p + Pairs() - cursor
    }

    /** No due pair is earlier, and none with the same deadline is nearer the cursor. */
    ghost predicate IsNext(p: nat, now: nat)
      requires Shaped()
    {
      && p < Pairs() && IsDue(p, now)
      && forall q :: 0 <= q < Pairs() && IsDue(q, now) ==>
           Deadline(p) < Deadline(q) || (Deadline(p) == Deadline(q) && Distance(p) <= Distance(q))
    }

    /** What a pop made at `now` has to answer. */
    ghost predicate Answers(now: nat, job: Option<Job>)
      requires Shaped()
    {
      if explicit != [] then
        var (pair, kind) := explicit[0];
        job == Some(Job(pair, kind, if kind == Sync && SweepOverdue(pair, now) then Sweep else Explicit))
      else match job
        case None => forall p :: 0 <= p < Pairs() ==> !IsDue(p, now)
        case Some(j) => IsNext(j.pair, now) && j.kind == Sync
                        && j.cause == if SweepOverdue(j.pair, now) then Sweep else Timer
    }

    /** The state a pop leaves behind. */
    function Popped(now: nat, job: Option<Job>): State
      requires Shaped() && (job.Some? ==> job.value.pair < Pairs())
    {
      match job
      case None => this
      case Some(j) =>
        var sweeps := if j.cause == Sweep then sweepAt[j.pair := None] else sweepAt;
        if explicit != [] then this.(explicit := explicit[1..], sweepAt := sweeps)
        else this.(cursor := if j.pair + 1 == Pairs() then 0 else j.pair + 1,
                   sweepAt := sweeps,
                   nextDue := nextDue[j.pair := Later(now, cadence[j.pair])])
    }
  }

  datatype Event =
    | Request(pair: nat, kind: JobKind)
    | SetSweep(pair: nat, at: Option<nat>)
    | SetCadence(pair: nat, cadence: nat)
    | Pop(now: nat, job: Option<Job>)
    | Rearm(pair: nat, from: nat)
    | Tighten(pair: nat, to: nat)

  /** `e` may happen in `s`: it names a pair, never a zero cadence, and a pop answers as it must. */
  ghost predicate Legal(s: State, e: Event)
    requires s.Shaped()
  {
    match e
    case Pop(now, job) => s.Answers(now, job)
    case SetCadence(pair, cadence) => pair < s.Pairs() && cadence > 0
    case _ => e.pair < s.Pairs()
  }

  ghost function After(s: State, e: Event): State
    requires s.Shaped() && Legal(s, e)
  {
    match e
    case Request(pair, kind) =>
      if (pair, kind) in s.explicit then s else s.(explicit := s.explicit + [(pair, kind)])
    case SetSweep(pair, at) => s.(sweepAt := s.sweepAt[pair := at])
    case SetCadence(pair, cadence) => s.(cadence := s.cadence[pair := cadence])
    case Pop(now, job) => s.Popped(now, job)
    case Rearm(pair, from) => s.(nextDue := s.nextDue[pair := Later(from, s.cadence[pair])])
    case Tighten(pair, to) => if to < s.nextDue[pair] then s.(nextDue := s.nextDue[pair := to]) else s
  }

  function Boot(cadences: seq<nat>, now: nat): State {
    State(seq(|cadences|, _ => now), cadences, seq(|cadences|, _ => None), [], 0)
  }

  /** Every step keeps the queue well formed, so no pair index ever goes stale and no request doubles. */
  lemma {:induction false} StepKeepsValid(s: State, e: Event)
    requires s.Valid() && Legal(s, e)
    ensures After(s, e).Valid() && After(s, e).Pairs() == s.Pairs()
  {
    if e.Pop? && e.job.Some? && s.explicit != [] {
      assert s.explicit[0] in s.explicit;
    }
  }

  /** The answer is determined: the rotating scan has one lexicographic minimum to find. */
  lemma {:induction false} AnswerIsUnique(s: State, now: nat, a: Option<Job>, b: Option<Job>)
    requires s.Valid() && s.Answers(now, a) && s.Answers(now, b)
    ensures a == b
  {
    if s.explicit == [] && a.Some? && b.Some? {
      assert s.Distance(a.value.pair) == s.Distance(b.value.pair);
    }
  }

  // ----- the same, read off the fields

  /** Neither the pair's timer nor a sweep armed for it falls before `at`. */
  predicate NothingBefore(s: State, p: nat, at: nat)
    requires p < |s.nextDue| && p < |s.sweepAt|
  {
    at <= s.nextDue[p] && (s.sweepAt[p].Some? ==> at <= s.sweepAt[p].value)
  }

  /** `at` is the pair's timer or the instant a sweep is armed for. */
  predicate FallsAt(s: State, p: nat, at: nat)
    requires p < |s.nextDue| && p < |s.sweepAt|
  {
    at == s.nextDue[p] || s.sweepAt[p] == Some(at)
  }

  lemma {:induction false} DeadlineIsTheEarlier(s: State, p: nat, at: nat)
    requires s.Shaped() && p < s.Pairs()
    ensures s.Deadline(p) == at <==> FallsAt(s, p, at) && NothingBefore(s, p, at)
  {}

  /** Going round from the cursor, the pair is so many steps ahead. */
  lemma {:induction false} DistanceCountsSteps(s: State, p: nat, steps: nat)
    requires s.Shaped() && p < s.Pairs() && steps < s.Pairs()
    ensures s.Distance(p) == steps <==> p == (s.cursor + steps) % s.Pairs()
  {
    Wrap(s.cursor + steps, s.Pairs());
  }

  /** With no request queued a pop finds nothing exactly when every timer and every armed sweep is still
      ahead. Otherwise it runs the pair whose timer or sweep falls first of all, and of several the first
      one going round from the cursor; it is a sweep exactly when that pair's own has come. */
  lemma {:induction false} TimerPopsReadBothInstants(s: State, now: nat, job: Option<Job>)
    requires s.Valid() && s.explicit == [] && s.Answers(now, job)
    ensures job.None? <==> forall p :: 0 <= p < |s.nextDue| ==>
              now < s.nextDue[p] && (s.sweepAt[p].Some? ==> now < s.sweepAt[p].value)
    ensures job.Some? ==>
              var p := job.value.pair;
              && p < |s.nextDue| && job.value.kind == Sync
              && (exists at: nat :: at <= now && FallsAt(s, p, at) && forall q :: 0 <= q < |s.nextDue| ==> NothingBefore(s, q, at))
              && job.value.cause == (if s.sweepAt[p].Some? && s.sweepAt[p].value <= now then Sweep else Timer)
  {
    if job.Some? {
      var (p, at) := (job.value.pair, s.Deadline(job.value.pair));
      DeadlineIsTheEarlier(s, p, at);
      forall q | 0 <= q < |s.nextDue| ensures NothingBefore(s, q, at) {
        DeadlineIsTheEarlier(s, q, s.Deadline(q));
        assert s.IsDue(q, now) || at <= now < s.Deadline(q);
      }
    } else {
      forall p | 0 <= p < |s.nextDue| ensures now < s.nextDue[p] && (s.sweepAt[p].Some? ==> now < s.sweepAt[p].value) {
        assert !s.IsDue(p, now);
      }
    }
  }

  /** A tie goes to the first pair going round from the cursor: every pair passed on the way is later. */
  lemma {:induction false} TiesGoRoundFromTheCursor(s: State, now: nat, job: Job, at: nat, steps: nat, passed: nat)
    requires s.Valid() && s.explicit == [] && s.Answers(now, Some(job))
    requires FallsAt(s, job.pair, at) && NothingBefore(s, job.pair, at)
    requires passed < steps < |s.nextDue| && job.pair == (s.cursor + steps) % |s.nextDue|
    ensures (s.cursor + passed) % |s.nextDue| < |s.nextDue|
    ensures NothingBefore(s, (s.cursor + passed) % |s.nextDue|, at + 1)
  {
    var q := (s.cursor + passed) % |s.nextDue|;
    Wrap(s.cursor + passed, s.Pairs());
    DistanceCountsSteps(s, job.pair, steps);
    DistanceCountsSteps(s, q, passed);
    DeadlineIsTheEarlier(s, job.pair, at);
    DeadlineIsTheEarlier(s, q, s.Deadline(q));
    assert !s.IsDue(q, now) || s.Deadline(job.pair) < s.Deadline(q);
  }

  /** The first request queued is answered first, and as a sweep exactly when it is a full pass of a pair
      whose own sweep has come. */
  lemma {:induction false} RequestsAreAnsweredAsQueued(s: State, now: nat, job: Option<Job>)
    requires s.Valid() && s.explicit != [] && s.Answers(now, job)
    ensures job.Some? && (job.value.pair, job.value.kind) == s.explicit[0]
    ensures job.value.cause == Sweep <==>
              job.value.kind == Sync && s.sweepAt[s.explicit[0].0].Some? && s.sweepAt[s.explicit[0].0].value <= now
    ensures job.value.cause != Timer
  {}

  lemma {:induction false} Wrap(x: nat, n: nat)
    requires 0 < n && x < 2 * n
    ensures x % n == if x < n then x else x - n
  {
    var (q, r) := (x / n, x % n);
    assert x == q * n + r;
    AtLeastTwice(q, n);
    assert q == 0 || q == 1;
  }

  lemma {:induction false} AtLeastTwice(q: nat, n: nat)
    ensures q >= 2 ==> q * n >= 2 * n
  {}
}
