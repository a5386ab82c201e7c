/** What the queue promises over whole runs: no spin, no starvation, fair ties, arrival order, and an
    exact account of every sweep. A run is any sequence of events, each legal where it happens. */
module DueQueueRuns {
  import opened Basics
  import opened Scheduling

  ghost predicate IsRun(s: State, events: seq<Event>)
    requires s.Valid()
    decreases |events|
  {
    events == [] || (Legal(s, events[0]) && IsRun(Next(s, events[0]), events[1..]))
  }

  ghost function Next(s: State, e: Event): (t: State)
    requires s.Valid() && Legal(s, e)
    ensures t.Valid() && t.Pairs() == s.Pairs()
  {
    StepKeepsValid(s, e);
    After(s, e)
  }

  /** The state a run ends in. */
  ghost function End(s: State, events: seq<Event>): (t: State)
    requires s.Valid() && IsRun(s, events)
    ensures t.Valid() && t.Pairs() == s.Pairs()
    decreases |events|
  {
    if events == [] then s else End(Next(s, events[0]), events[1..])
  }

  function Pops(events: seq<Event>): nat {
    if events == [] then 0 else (if events[0].Pop? then 1 else 0) + Pops(events[1..])
  }

  function Requests(events: seq<Event>): nat {
    if events == [] then 0 else (if events[0].Request? then 1 else 0) + Requests(events[1..])
  }

  /** Pops that had to look at the timers, having found no explicit request. */
  ghost predicate IsTimerPop(s: State, e: Event) { e.Pop? && s.explicit == [] }

  /** Timer pops that ran pair `q`. */
  ghost function RunsOf(s: State, events: seq<Event>, q: nat): nat
    requires s.Valid() && IsRun(s, events)
    decreases |events|
  {
    if events == [] then 0
    else (if IsTimerPop(s, events[0]) && events[0].job.Some? && events[0].job.value.pair == q then 1 else 0)
         + RunsOf(Next(s, events[0]), events[1..], q)
  }

  ghost function TimerPops(s: State, events: seq<Event>): nat
    requires s.Valid() && IsRun(s, events)
    decreases |events|
  {
    if events == [] then 0
    else (if IsTimerPop(s, events[0]) then 1 else 0) + TimerPops(Next(s, events[0]), events[1..])
  }

  // ----- sets of pairs

  lemma {:induction false} SmallerSet<T>(a: set<T>, b: set<T>)
    requires a <= b
    ensures |a| <= |b|
  {
    if a != {} {
      var x :| x in a;
      SmallerSet(a - {x}, b - {x});
    }
  }

  lemma {:induction false} BelowCount(a: set<nat>, n: nat)
    requires forall x :: x in a ==> x < n
    ensures |a| <= n
  {
    if n == 0 {
      assert a == {};
    } else {
      BelowCount(a - {n - 1}, n - 1);
    }
  }

  // ----- no spin

  ghost function DuePairs(s: State, now: nat): set<nat>
    requires s.Shaped()
  {
    set p: nat | p < s.Pairs() && s.IsDue(p, now)
  }

  /** How much a pop at `now` can still find. */
  ghost function Pending(s: State, now: nat): nat
    requires s.Shaped()
  {
    |s.explicit| + |DuePairs(s, now)|
  }

  lemma {:induction false} PopUsesOneUp(s: State, now: nat, job: Option<Job>)
    requires s.Valid() && s.Answers(now, job)
    ensures job.None? <==> Pending(s, now) == 0
    ensures job.Some? ==> Pending(Next(s, Pop(now, job)), now) < Pending(s, now)
  {
    var t := Next(s, Pop(now, job));
    if job.None? {
      assert DuePairs(s, now) == {};
    } else if s.explicit != [] {
      assert s.explicit[0] in s.explicit;
      assert DuePairs(t, now) <= DuePairs(s, now);
      SmallerSet(DuePairs(t, now), DuePairs(s, now));
    } else {
      var p := job.value.pair;
      assert p in DuePairs(s, now);
      assert DuePairs(t, now) <= DuePairs(s, now) - {p};
      SmallerSet(DuePairs(t, now), DuePairs(s, now) - {p});
    }
  }

  /** No spin: popping at one instant finds nothing from the (queued + due)-th pop on, even when the
      caller never re-arms a pair. */
  lemma {:induction false} NoSpin(s: State, now: nat, events: seq<Event>, i: nat)
    requires s.Valid() && IsRun(s, events)
    requires forall k :: 0 <= k < |events| ==> events[k].Pop? && events[k].now == now
    requires Pending(s, now) <= i < |events|
    ensures events[i].job.None?
    decreases |events|
  {
    PopUsesOneUp(s, now, events[0].job);
    if i > 0 {
      var t := Next(s, events[0]);
      assert events[0].job.None? ==> t == s;
      NoSpin(t, now, events[1..], i - 1);
    }
  }

  /** The loop never wakes for nothing: with no request queued, a pop finds nothing exactly when the
      earliest deadline is still ahead. */
  lemma {:induction false} IdleExactlyUntilTheWake(s: State, now: nat, job: Option<Job>, wake: nat)
    requires s.Valid() && s.Answers(now, job)
    requires exists p :: 0 <= p < s.Pairs() && wake == s.Deadline(p)
    requires forall p :: 0 <= p < s.Pairs() ==> wake <= s.Deadline(p)
    ensures job.None? <==> s.explicit == [] && now < wake
  {
    var p :| 0 <= p < s.Pairs() && wake == s.Deadline(p);
    if s.explicit == [] && job.None? {
      assert !s.IsDue(p, now);
    }
  }

  // ----- no starvation

  /** Pairs other than `p` due no later than `d`. */
  ghost function Rivals(s: State, p: nat, d: nat): set<nat>
    requires s.Shaped()
  {
    set q: nat | q < s.Pairs() && q != p && s.Deadline(q) <= d
  }

  /** `e` neither serves nor postpones `p`, happens once `p` is due, and gives no other pair a deadline
      at or before `d`. An inert plan of `p` may run; cadences and requests are unrestricted. */
  predicate LeavesWaiting(e: Event, p: nat, d: nat) {
    match e
    case Pop(now, job) => d <= now && (job.Some? && job.value.pair == p ==> job.value.kind == Plan)
    case Rearm(q, from) => q != p && d <= from
    case Tighten(q, to) => q == p || d < to
    case SetSweep(q, at) => q != p && (at.Some? ==> d < at.value)
    case SetCadence(_, _) => true
    case Request(_, _) => true
  }

  ghost predicate AllLeaveWaiting(events: seq<Event>, p: nat, d: nat) {
    forall k :: 0 <= k < |events| ==> LeavesWaiting(events[k], p, d)
  }

  lemma {:induction false} StepWhileWaiting(s: State, e: Event, p: nat, d: nat)
    requires s.Valid() && Legal(s, e) && p < s.Pairs() && s.Deadline(p) <= d
    requires LeavesWaiting(e, p, d)
    ensures Next(s, e).Deadline(p) <= d
    ensures Rivals(Next(s, e), p, d) <= Rivals(s, p, d)
    ensures IsTimerPop(s, e) ==> e.job.Some?
                                 && e.job.value.pair in Rivals(s, p, d)
                                 && e.job.value.pair !in Rivals(Next(s, e), p, d)
  {
    if IsTimerPop(s, e) {
      assert s.IsDue(p, e.now);
    }
  }

  /** While `p` waits, every other pair runs from its timer at most once: only if it was already due no
      later than `p`, and then it goes to the back. */
  lemma {:induction false} OthersRunOnce(s: State, events: seq<Event>, p: nat, d: nat, q: nat)
    requires s.Valid() && IsRun(s, events) && p < s.Pairs() && s.Deadline(p) <= d
    requires AllLeaveWaiting(events, p, d)
    ensures RunsOf(s, events, q) <= if q in Rivals(s, p, d) then 1 else 0
    decreases |events|
  {
    if events != [] {
      StepWhileWaiting(s, events[0], p, d);
      OthersRunOnce(Next(s, events[0]), events[1..], p, d, q);
    }
  }

  lemma {:induction false} WaitingIsBounded(s: State, events: seq<Event>, p: nat, d: nat)
    requires s.Valid() && IsRun(s, events) && p < s.Pairs() && s.Deadline(p) <= d
    requires AllLeaveWaiting(events, p, d)
    ensures TimerPops(s, events) <= |Rivals(s, p, d)|
    ensures Pops(events) <= TimerPops(s, events) + |s.explicit| + Requests(events)
    decreases |events|
  {
    if events != [] {
      var t := Next(s, events[0]);
      StepWhileWaiting(s, events[0], p, d);
      WaitingIsBounded(t, events[1..], p, d);
      var (now, later) := (Rivals(s, p, d), Rivals(t, p, d));
      if IsTimerPop(s, events[0]) {
        assert later <= now - {events[0].job.value.pair};
        SmallerSet(later, now - {events[0].job.value.pair});
      } else {
        SmallerSet(later, now);
      }
    }
  }

  /** No starvation: a pair due at `d` runs within n pops of the timers, and within n pops altogether
      besides one for each explicit request queued or made meanwhile. Any run that leaves it waiting
      is shorter than that. */
  lemma {:induction false} NoStarvation(s: State, events: seq<Event>, p: nat, d: nat)
    requires s.Valid() && IsRun(s, events) && p < s.Pairs() && s.Deadline(p) <= d
    requires AllLeaveWaiting(events, p, d)
    ensures TimerPops(s, events) < s.Pairs()
    ensures Pops(events) < s.Pairs() + |s.explicit| + Requests(events)
  {
    WaitingIsBounded(s, events, p, d);
    assert forall q :: q in Rivals(s, p, d) + {p} ==> q < s.Pairs();
    BelowCount(Rivals(s, p, d) + {p}, s.Pairs());
  }

  // ----- fair ties

  /** `e` neither serves nor postpones `p`, and happens once `p` is due. */
  predicate Unserved(e: Event, p: nat, d: nat) {
    match e
    case Pop(now, job) => d <= now && (job.Some? && job.value.pair == p ==> job.value.kind == Plan)
    case Rearm(q, _) => q != p
    case SetSweep(q, _) => q != p
    case _ => true
  }

  /** `e` gives another pair an instant strictly before `d` to be due from. */
  predicate Grants(e: Event, p: nat, d: nat) {
    match e
    case Rearm(q, from) => q != p && from < d
    case Tighten(q, to) => q != p && to < d
    case SetSweep(q, at) => q != p && at.Some? && at.value < d
    case _ => false
  }

  /** As `LeavesWaiting`, but other pairs may be given deadlines that tie with `d`. */
  predicate AtBestTies(e: Event, p: nat, d: nat) { Unserved(e, p, d) && !Grants(e, p, d) }

  /** Pairs strictly earlier than `d`. */
  ghost function Earlier(s: State, p: nat, d: nat): set<nat>
    requires s.Shaped()
  {
    set q: nat | q < s.Pairs() && q != p && s.Deadline(q) < d
  }

  /** `e` puts a pair ahead of `p` that was not ahead of it before. */
  ghost predicate Overtakes(s: State, e: Event, p: nat, d: nat)
    requires s.Valid() && Legal(s, e)
  {
    !(Earlier(Next(s, e), p, d) <= Earlier(s, p, d))
  }

  ghost function OvertakeCount(s: State, events: seq<Event>, p: nat, d: nat): nat
    requires s.Valid() && IsRun(s, events)
    decreases |events|
  {
    if events == [] then 0
    else (if Overtakes(s, events[0], p, d) then 1 else 0) + OvertakeCount(Next(s, events[0]), events[1..], p, d)
  }

  lemma {:induction false} StepTowardsTurn(s: State, e: Event, p: nat, d: nat)
    requires s.Valid() && Legal(s, e) && p < s.Pairs() && s.Deadline(p) <= d
    requires Unserved(e, p, d) && !Overtakes(s, e, p, d)
    ensures Next(s, e).Deadline(p) <= d
    ensures Earlier(Next(s, e), p, d) <= Earlier(s, p, d)
    ensures !IsTimerPop(s, e) ==> Next(s, e).Distance(p) == s.Distance(p)
    ensures IsTimerPop(s, e) ==> e.job.Some?
    ensures IsTimerPop(s, e) ==> if e.job.value.pair in Earlier(s, p, d)
                                 then Earlier(Next(s, e), p, d) <= Earlier(s, p, d) - {e.job.value.pair}
                                      && Next(s, e).Distance(p) + 1 < s.Pairs()
                                 else Next(s, e).Distance(p) < s.Distance(p)
  {
    if IsTimerPop(s, e) {
      assert s.IsDue(p, e.now);
    }
  }

  /** How many timer pops `p` can still be made to wait for: a full round of the others for each pair
      strictly earlier, and then its distance from the cursor. */
  ghost function Turns(s: State, p: nat, d: nat): nat
    requires s.Shaped() && p < s.Pairs()
  {
    |Earlier(s, p, d)| * (s.Pairs() - 1) + s.Distance(p)
  }

  lemma {:induction false} StepUsesATurn(s: State, e: Event, p: nat, d: nat)
    requires s.Valid() && Legal(s, e) && p < s.Pairs() && s.Deadline(p) <= d
    requires Unserved(e, p, d) && !Overtakes(s, e, p, d)
    ensures Next(s, e).Deadline(p) <= d
    ensures Turns(Next(s, e), p, d) + (if IsTimerPop(s, e) then 1 else 0) <= Turns(s, p, d)
  {
    var t := Next(s, e);
    StepTowardsTurn(s, e, p, d);
    hide Earlier, State.Deadline, State.Valid, Legal, Unserved;
    if IsTimerPop(s, e) && e.job.value.pair in Earlier(s, p, d) {
      SmallerSet(Earlier(t, p, d), Earlier(s, p, d) - {e.job.value.pair});
      FewerEarlier(|Earlier(t, p, d)|, |Earlier(s, p, d)|, s.Pairs() - 1, t.Distance(p), s.Distance(p));
    } else {
      SmallerSet(Earlier(t, p, d), Earlier(s, p, d));
      NoMoreEarlier(|Earlier(t, p, d)|, |Earlier(s, p, d)|, s.Pairs() - 1);
    }
  }

  /** Only a grant overtakes, and it puts one pair ahead. */
  lemma {:induction false} OvertakingAddsOne(s: State, e: Event, p: nat, d: nat)
    requires s.Valid() && Legal(s, e) && p < s.Pairs() && s.Deadline(p) <= d
    requires Unserved(e, p, d) && Overtakes(s, e, p, d)
    ensures Grants(e, p, d)
    ensures !IsTimerPop(s, e) && Next(s, e).Deadline(p) <= d && Next(s, e).Distance(p) == s.Distance(p)
    ensures Earlier(Next(s, e), p, d) <= Earlier(s, p, d) + {e.pair}
  {}

  /** Overtaking costs `p` at most one more round of the others. */
  lemma {:induction false} OvertakingCostsARound(s: State, e: Event, p: nat, d: nat)
    requires s.Valid() && Legal(s, e) && p < s.Pairs() && s.Deadline(p) <= d
    requires Unserved(e, p, d) && Overtakes(s, e, p, d)
    ensures !IsTimerPop(s, e) && Next(s, e).Deadline(p) <= d
    ensures Turns(Next(s, e), p, d) <= Turns(s, p, d) + (s.Pairs() - 1)
  {
    OvertakingAddsOne(s, e, p, d);
    hide Earlier, State.Deadline, State.Valid, State.Distance, Legal, Unserved, Grants;
    var (now, later, round) := (Earlier(s, p, d), Earlier(Next(s, e), p, d), s.Pairs() - 1);
    SmallerSet(later, now + {e.pair});
    NoMoreEarlier(|later|, |now| + 1, round);
    assert (|now| + 1) * round == |now| * round + round;
  }

  /** The exact cost of waiting: whatever else happens, timer pops that pass `p` over are paid for by the
      turns it is behind to begin with and by one round of the others for each time it is overtaken. */
  lemma {:induction false} WaitingIsPaidFor(s: State, events: seq<Event>, p: nat, d: nat)
    requires s.Valid() && IsRun(s, events) && p < s.Pairs() && s.Deadline(p) <= d
    requires forall k :: 0 <= k < |events| ==> Unserved(events[k], p, d)
    ensures TimerPops(s, events) <= Turns(s, p, d) + (s.Pairs() - 1) * OvertakeCount(s, events, p, d)
    decreases |events|
  {
    if events != [] {
      var (e, rest) := (events[0], events[1..]);
      if Overtakes(s, e, p, d) { OvertakingCostsARound(s, e, p, d); } else { StepUsesATurn(s, e, p, d); }
      hide Turns, State.Deadline, State.Valid, Legal, Unserved, Overtakes;
      WaitingIsPaidFor(Next(s, e), rest, p, d);
      OneMoreRound(s.Pairs() - 1, OvertakeCount(Next(s, e), rest, p, d));
    }
  }

  lemma {:induction false} OneMoreRound(round: nat, times: nat)
    ensures round * (times + 1) == round * times + round
  {}

  lemma {:induction false} NoGrants(s: State, events: seq<Event>, p: nat, d: nat)
    requires s.Valid() && IsRun(s, events) && p < s.Pairs() && s.Deadline(p) <= d
    requires forall k :: 0 <= k < |events| ==> AtBestTies(events[k], p, d)
    ensures OvertakeCount(s, events, p, d) == 0
    decreases |events|
  {
    if events != [] {
      var (e, rest) := (events[0], events[1..]);
      if Overtakes(s, e, p, d) { OvertakingAddsOne(s, e, p, d); }
      StepTowardsTurn(s, e, p, d);
      hide State.Deadline, State.Valid, Legal, AtBestTies, Overtakes;
      NoGrants(Next(s, e), rest, p, d);
    }
  }

  /** Fair ties: even when other pairs are made to tie with `p` again and again, each timer pop either
      retires a strictly earlier pair or brings the rotation nearer to `p`. */
  lemma {:induction false} TiesTakeTurns(s: State, events: seq<Event>, p: nat, d: nat)
    requires s.Valid() && IsRun(s, events) && p < s.Pairs() && s.Deadline(p) <= d
    requires forall k :: 0 <= k < |events| ==> AtBestTies(events[k], p, d)
    ensures TimerPops(s, events) <= Turns(s, p, d)
  {
    hide Turns, State.Deadline, Unserved, Grants;
    NoGrants(s, events, p, d);
    WaitingIsPaidFor(s, events, p, d);
  }

  lemma {:induction false} NoMoreEarlier(x: nat, y: nat, n: nat)
    requires x <= y
    ensures x * n <= y * n
  {}

  lemma {:induction false} FewerEarlier(x: nat, y: nat, n: nat, near: nat, far: nat)
    requires x < y && near < n
    ensures x * n + near + 1 <= y * n + far
  {
    NoMoreEarlier(x + 1, y, n);
    assert (x + 1) * n == x * n + n;
  }

  /** With no pair strictly earlier, at most the pairs between the cursor and `p` go first, once round. */
  lemma {:induction false} TiesGoRoundOnce(s: State, events: seq<Event>, p: nat, d: nat)
    requires s.Valid() && IsRun(s, events) && p < s.Pairs() && s.Deadline(p) <= d
    requires forall k :: 0 <= k < |events| ==> AtBestTies(events[k], p, d)
    requires Earlier(s, p, d) == {}
    ensures TimerPops(s, events) <= s.Distance(p) < s.Pairs()
  {
    TiesTakeTurns(s, events, p, d);
  }

  lemma {:induction false} CursorStays(s: State, events: seq<Event>)
    requires s.Valid() && IsRun(s, events)
    requires forall q: nat :: RunsOf(s, events, q) == 0
    ensures End(s, events).cursor == s.cursor
    decreases |events|
  {
    if events != [] {
      var t := Next(s, events[0]);
      if IsTimerPop(s, events[0]) && events[0].job.Some? {
        assert RunsOf(s, events, events[0].job.value.pair) > 0;
      }
      forall q: nat ensures RunsOf(t, events[1..], q) == 0 { assert RunsOf(s, events, q) == 0; }
      CursorStays(t, events[1..]);
    }
  }

  /** A pair that just ran is the last to win a tie: whatever happens until a timer next runs a pair, and
      whenever that is, any other pair due no later goes before it. */
  lemma {:induction false} JustRanLosesTheTie(s: State, now: nat, job: Job, events: seq<Event>, later: nat, again: Option<Job>, q: nat)
    requires s.Valid() && s.explicit == [] && s.Answers(now, Some(job))
    requires IsRun(Next(s, Pop(now, Some(job))), events)
    requires forall r: nat :: RunsOf(Next(s, Pop(now, Some(job))), events, r) == 0
    requires var t := End(Next(s, Pop(now, Some(job))), events);
             && t.explicit == [] && t.Answers(later, again)
             && q < t.Pairs() && q != job.pair && t.IsDue(q, later) && t.Deadline(q) <= t.Deadline(job.pair)
    ensures again.Some? && again.value.pair != job.pair
  {
    var ran := Next(s, Pop(now, Some(job)));
    CursorStays(ran, events);
    BehindTheCursorIsLast(End(ran, events), job.pair, q);
  }

  lemma {:induction false} BehindTheCursorIsLast(t: State, p: nat, q: nat)
    requires t.Valid() && p < t.Pairs() && q < t.Pairs() && q != p
    requires t.cursor == if p + 1 == t.Pairs() then 0 else p + 1
    ensures t.Distance(q) < t.Distance(p)
  {}

  // ----- being overtaken is what waiting costs, to the pop

  /** The last of `n` pairs is due at `d`; the others ran at `now` and are due later. */
  function Waiting(n: nat, d: nat, now: nat, cursor: nat): (s: State)
    requires n >= 1
    ensures |s.nextDue| == |s.cadence| == |s.sweepAt| == n && s.explicit == [] && s.cursor == cursor
    ensures forall i :: 0 <= i < n ==> s.nextDue[i] == if i == n - 1 then d else Later(now, NANOS)
    ensures forall i :: 0 <= i < n ==> s.cadence[i] == NANOS && s.sweepAt[i] == None
  {
    State(seq(n - 1, _ => Later(now, NANOS)) + [d], seq(n, _ => NANOS), seq(n, _ => None), [], cursor)
  }

  /** One round: pair 0 is made due just before the last pair, each other in turn is made to tie with it,
      and each runs. */
  function Round(n: nat, d: nat, now: nat, i: nat): seq<Event>
    requires d >= 1
    decreases n - i
  {
    if i + 1 >= n then []
    else [Tighten(i, if i == 0 then d - 1 else d)] + ([Pop(now, Some(Job(i, Sync, Timer)))] + Round(n, d, now, i + 1))
  }

  function Rounds(n: nat, d: nat, now: nat, rounds: nat): seq<Event>
    requires d >= 1
  {
    if rounds == 0 then [] else Round(n, d, now, 0) + Rounds(n, d, now, rounds - 1)
  }

  /** From `s`, `events` keep `p` waiting over so many timer pops, while it is overtaken so many times. */
  ghost predicate PassOver(s: State, events: seq<Event>, p: nat, d: nat, pops: nat, times: nat) {
    s.Valid() && IsRun(s, events) && (forall k :: 0 <= k < |events| ==> Unserved(events[k], p, d))
    && TimerPops(s, events) == pops && OvertakeCount(s, events, p, d) == times
  }

  lemma {:induction false} OneOvertakes(n: nat, d: nat, now: nat, cursor: nat, i: nat, to: nat)
    requires n >= 2 && 1 <= d <= now && cursor < n && i + 1 < n
    requires to < d || (to == d && cursor == i)
    ensures var s := Waiting(n, d, now, cursor);
            && s.Valid() && Legal(s, Tighten(i, to))
            && var t := Next(s, Tighten(i, to));
            && t.explicit == [] && Legal(t, Pop(now, Some(Job(i, Sync, Timer))))
            && Next(t, Pop(now, Some(Job(i, Sync, Timer)))) == Waiting(n, d, now, i + 1)
            && (Overtakes(s, Tighten(i, to), n - 1, d) <==> to < d)
            && !Overtakes(t, Pop(now, Some(Job(i, Sync, Timer))), n - 1, d)
  {
    var s := Waiting(n, d, now, cursor);
    var t := Next(s, Tighten(i, to));
    assert to < s.nextDue[i] && t.nextDue == s.nextDue[i := to];
    forall q | 0 <= q < n && t.IsDue(q, now) && q != i ensures q == n - 1 && t.Deadline(q) == d {}
    assert t.IsNext(i, now);
    var u := Next(t, Pop(now, Some(Job(i, Sync, Timer))));
    assert u.nextDue == s.nextDue[i := to][i := Later(now, NANOS)] == s.nextDue;
    assert Earlier(s, n - 1, d) == Earlier(u, n - 1, d) == {};
    assert i in Earlier(t, n - 1, d) <==> to < d;
    assert Earlier(t, n - 1, d) <= {i};
  }

  /** Two events in front of a run. */
  lemma {:induction false} TwoMore(s: State, e: Event, pop: Event, more: seq<Event>, p: nat, d: nat, pops: nat, times: nat)
    requires s.Valid() && Legal(s, e) && !e.Pop? && Legal(Next(s, e), pop) && pop.Pop? && Next(s, e).explicit == []
    requires Unserved(e, p, d) && Unserved(pop, p, d)
    requires !Overtakes(Next(s, e), pop, p, d) && PassOver(Next(Next(s, e), pop), more, p, d, pops, times)
    ensures PassOver(s, [e] + ([pop] + more), p, d, pops + 1, times + if Overtakes(s, e, p, d) then 1 else 0)
  {
    hide Legal, State.Valid, Unserved, Overtakes;
    var (t, next, events) := (Next(s, e), [pop] + more, [e] + ([pop] + more));
    assert next[1..] == more && events[1..] == next;
    assert IsRun(t, next) && IsRun(s, events);
    assert TimerPops(t, next) == 1 + pops && TimerPops(s, events) == TimerPops(t, next);
    assert OvertakeCount(t, next, p, d) == times;
  }

  lemma {:induction false} RoundGoesOn(n: nat, d: nat, now: nat, cursor: nat, i: nat, rest: seq<Event>, pops: nat, times: nat)
    requires n >= 2 && 1 <= d <= now && cursor < n && i < n && (i == 0 || cursor == i)
    requires PassOver(Waiting(n, d, now, n - 1), rest, n - 1, d, pops, times)
    ensures PassOver(Waiting(n, d, now, cursor), Round(n, d, now, i) + rest, n - 1, d,
                     pops + (n - 1 - i), times + if i == 0 then 1 else 0)
    decreases n - i
  {
    hide PassOver, Waiting, Legal, State.Valid, Overtakes, Next;
    if i + 1 == n {
      assert Round(n, d, now, i) + rest == rest;
    } else {
      var more := Round(n, d, now, i + 1) + rest;
      var (tighten, pop) := (Tighten(i, if i == 0 then d - 1 else d), Pop(now, Some(Job(i, Sync, Timer))));
      OneOvertakes(n, d, now, cursor, i, tighten.to);
      RoundGoesOn(n, d, now, i + 1, i + 1, rest, pops, times);
      TwoMore(Waiting(n, d, now, cursor), tighten, pop, more, n - 1, d, pops + (n - 1 - (i + 1)), times);
      assert Round(n, d, now, i) + rest == [tighten] + ([pop] + more);
    }
  }

  /** The cost is reached: with any number of pairs and any deadline, however often the last pair is
      overtaken, each time can cost it a full round of the others. */
  lemma {:induction false} EveryOvertakingCanCostARound(n: nat, d: nat, now: nat, rounds: nat)
    requires n >= 2 && 1 <= d <= now
    ensures var (s, events) := (Waiting(n, d, now, n - 1), Rounds(n, d, now, rounds));
            && s.Valid() && s.Deadline(n - 1) == d && Turns(s, n - 1, d) == 0
            && IsRun(s, events) && (forall k :: 0 <= k < |events| ==> Unserved(events[k], n - 1, d))
            && OvertakeCount(s, events, n - 1, d) == rounds
            && TimerPops(s, events) == (n - 1) * rounds
  {
    var s := Waiting(n, d, now, n - 1);
    forall q: nat | q < n && q != n - 1 ensures s.Deadline(q) >= d {}
    assert Earlier(s, n - 1, d) == {};
    RoundsPassOver(n, d, now, rounds);
  }

  lemma {:induction false} RoundsPassOver(n: nat, d: nat, now: nat, rounds: nat)
    requires n >= 2 && 1 <= d <= now
    ensures PassOver(Waiting(n, d, now, n - 1), Rounds(n, d, now, rounds), n - 1, d, (n - 1) * rounds, rounds)
    decreases rounds
  {
    hide PassOver, Waiting, Round;
    if rounds == 0 {
      NoRounds(n, d, now);
    } else {
      RoundsPassOver(n, d, now, rounds - 1);
      RoundGoesOn(n, d, now, n - 1, 0, Rounds(n, d, now, rounds - 1), (n - 1) * (rounds - 1), rounds - 1);
      OneMoreRound(n - 1, rounds - 1);
    }
  }

  lemma {:induction false} NoRounds(n: nat, d: nat, now: nat)
    requires n >= 2 && 1 <= d <= now
    ensures PassOver(Waiting(n, d, now, n - 1), Rounds(n, d, now, 0), n - 1, d, 0, 0)
  {}

  // ----- explicit requests

  /** The jobs the explicit queue answered with, in order. */
  ghost function Answered(s: State, events: seq<Event>): seq<(nat, JobKind)>
    requires s.Valid() && IsRun(s, events)
    decreases |events|
  {
    if events == [] then []
    else (if events[0].Pop? && s.explicit != [] then [(events[0].job.value.pair, events[0].job.value.kind)] else [])
         + Answered(Next(s, events[0]), events[1..])
  }

  /** The requests that were queued, in order: those not already waiting. */
  ghost function Accepted(s: State, events: seq<Event>): seq<(nat, JobKind)>
    requires s.Valid() && IsRun(s, events)
    decreases |events|
  {
    if events == [] then []
    else (if events[0].Request? && (events[0].pair, events[0].kind) !in s.explicit
          then [(events[0].pair, events[0].kind)] else [])
         + Accepted(Next(s, events[0]), events[1..])
  }

  /** Exact and in arrival order: what was answered, then what still waits, is what waited at the start
      and then what was accepted. Nothing is lost, doubled or reordered. */
  lemma {:induction false} RequestsLeaveInArrivalOrder(s: State, events: seq<Event>)
    requires s.Valid() && IsRun(s, events)
    ensures Answered(s, events) + End(s, events).explicit == s.explicit + Accepted(s, events)
    decreases |events|
  {
    if events == [] {
      assert [] + s.explicit == s.explicit + [];
    } else {
      var (e, t, rest) := (events[0], Next(s, events[0]), events[1..]);
      RequestsLeaveInArrivalOrder(t, rest);
      ExplicitStep(s, e);
      OneStepOfTheLog(s, events);
      var (answered, accepted) := (AnsweredBy(s, e), AcceptedBy(s, e));
      hide Next, End, IsRun, Answered, Accepted, AnsweredBy, AcceptedBy, State.Valid, Legal;
      Chain(answered, Answered(t, rest), End(t, rest).explicit, s.explicit, accepted, t.explicit, Accepted(t, rest));
    }
  }

  /** What one event answers from the queue, and what it puts on it. */
  ghost function AnsweredBy(s: State, e: Event): seq<(nat, JobKind)> {
    if e.Pop? && s.explicit != [] && e.job.Some? then [(e.job.value.pair, e.job.value.kind)] else []
  }

  ghost function AcceptedBy(s: State, e: Event): seq<(nat, JobKind)> {
    if e.Request? && (e.pair, e.kind) !in s.explicit then [(e.pair, e.kind)] else []
  }

  lemma {:induction false} ExplicitStep(s: State, e: Event)
    requires s.Valid() && Legal(s, e)
    ensures AnsweredBy(s, e) + Next(s, e).explicit == s.explicit + AcceptedBy(s, e)
  {}

  lemma {:induction false} OneStepOfTheLog(s: State, events: seq<Event>)
    requires s.Valid() && IsRun(s, events) && events != []
    ensures Answered(s, events) == AnsweredBy(s, events[0]) + Answered(Next(s, events[0]), events[1..])
    ensures Accepted(s, events) == AcceptedBy(s, events[0]) + Accepted(Next(s, events[0]), events[1..])
    ensures End(s, events) == End(Next(s, events[0]), events[1..])
  {}

  lemma {:induction false} Chain<T>(a: seq<T>, b: seq<T>, w: seq<T>, q: seq<T>, c: seq<T>, r: seq<T>, d: seq<T>)
    requires b + w == r + d && a + r == q + c
    ensures a + b + w == q + (c + d)
  {
    assert a + b + w == a + (b + w) == a + (r + d) == a + r + d == q + c + d;
  }

  /** The queue holds at most one Sync and one Plan for each pair. */
  lemma {:induction false} QueueNeverExceedsTwoPerPair(s: State)
    requires s.Valid()
    ensures |s.explicit| <= 2 * s.Pairs()
  {
    var codes := seq(|s.explicit|, i requires 0 <= i < |s.explicit| =>
      2 * s.explicit[i].0 + if s.explicit[i].1 == Sync then 0 else 1);
    forall i, j | 0 <= i < j < |codes| ensures codes[i] != codes[j] {
      assert s.explicit[i] != s.explicit[j];
    }
    DistinctElements(codes);
    forall c | c in Elements(codes) ensures c < 2 * s.Pairs() {
      var i :| 0 <= i < |codes| && codes[i] == c;
    }
    BelowCount(Elements(codes), 2 * s.Pairs());
  }

  ghost function Elements(xs: seq<nat>): set<nat> { set x | x in xs }

  lemma {:induction false} DistinctElements(xs: seq<nat>)
    requires forall i, j :: 0 <= i < j < |xs| ==> xs[i] != xs[j]
    ensures |Elements(xs)| == |xs|
  {
    if xs != [] {
      DistinctElements(xs[1..]);
      assert xs[0] !in xs[1..];
      assert Elements(xs) == {xs[0]} + Elements(xs[1..]);
    }
  }

  /** While requests wait, pops answer them one by one. */
  lemma {:induction false} PopsAnswerTheQueue(s: State, events: seq<Event>)
    requires s.Valid() && IsRun(s, events)
    ensures |Answered(s, events)| <= Pops(events)
    ensures |Answered(s, events)| >= Pops(events) || |Answered(s, events)| >= |s.explicit|
    decreases |events|
  {
    if events != [] { PopsAnswerTheQueue(Next(s, events[0]), events[1..]); }
  }

  /** Every request is answered: whatever else happens, the 2n-th pop after it at the latest is its own,
      and it comes in its place in the queue. */
  lemma {:induction false} EveryRequestIsAnswered(s: State, request: Event, events: seq<Event>) returns (place: nat)
    requires s.Valid() && request.Request? && Legal(s, request) && IsRun(Next(s, request), events)
    ensures place < 2 * s.Pairs()
    ensures Pops(events) > place ==>
              |Answered(Next(s, request), events)| > place
              && Answered(Next(s, request), events)[place] == (request.pair, request.kind)
  {
    var t := Next(s, request);
    assert (request.pair, request.kind) in t.explicit;
    place :| 0 <= place < |t.explicit| && t.explicit[place] == (request.pair, request.kind);
    QueueNeverExceedsTwoPerPair(t);
    if Pops(events) > place {
      PopsAnswerTheQueue(t, events);
      RequestsLeaveInArrivalOrder(t, events);
      var answered := Answered(t, events);
      assert answered[place] == (answered + End(t, events).explicit)[place]
          == (t.explicit + Accepted(t, events))[place];
    }
  }

  // ----- sweeps

  predicate IsSweepOf(e: Event, p: nat) {
    e.Pop? && e.job.Some? && e.job.value.pair == p && e.job.value.cause == Sweep
  }

  function Sweeps(events: seq<Event>, p: nat): nat {
    if events == [] then 0 else (if IsSweepOf(events[0], p) then 1 else 0) + Sweeps(events[1..], p)
  }

  /** How often `p`'s sweep was armed. */
  function Arms(events: seq<Event>, p: nat): nat {
    if events == [] then 0
    else (if events[0].SetSweep? && events[0].pair == p && events[0].at.Some? then 1 else 0) + Arms(events[1..], p)
  }

  /** How often an armed sweep of `p` was replaced or disarmed by the daemon. */
  ghost function Replaced(s: State, events: seq<Event>, p: nat): nat
    requires s.Valid() && IsRun(s, events) && p < s.Pairs()
    decreases |events|
  {
    if events == [] then 0
    else (if events[0].SetSweep? && events[0].pair == p && s.sweepAt[p].Some? then 1 else 0)
         + Replaced(Next(s, events[0]), events[1..], p)
  }

  function Armed(s: State, p: nat): nat
    requires s.Shaped() && p < s.Pairs()
  {
    if s.sweepAt[p].Some? then 1 else 0
  }

  /** Exact sweep accounting: each sweep armed for a pair ends in exactly one of three ways, popped once
      as that pair's sweep, replaced, or still armed. */
  lemma {:induction false} EverySweepIsAccountedFor(s: State, events: seq<Event>, p: nat)
    requires s.Valid() && IsRun(s, events) && p < s.Pairs()
    ensures Armed(s, p) + Arms(events, p)
         == Sweeps(events, p) + Replaced(s, events, p) + Armed(End(s, events), p)
    decreases |events|
  {
    if events != [] {
      EverySweepIsAccountedFor(Next(s, events[0]), events[1..], p);
    }
  }

  /** When `p`'s sweep is armed for, read off the history alone: the last setting since it last swept. */
  function ArmedFor(initial: Option<nat>, events: seq<Event>, p: nat): Option<nat> {
    if events == [] then initial
    else
      var e := events[|events| - 1];
      if IsSweepOf(e, p) then None
      else if e.SetSweep? && e.pair == p then e.at
      else ArmedFor(initial, events[..|events| - 1], p)
  }

  lemma {:induction false} RunSplits(s: State, events: seq<Event>, e: Event)
    requires s.Valid() && IsRun(s, events + [e])
    ensures IsRun(s, events) && Legal(End(s, events), e)
    ensures End(s, events + [e]) == Next(End(s, events), e)
    decreases |events|
  {
    if events == [] {
      assert events + [e] == [e];
    } else {
      assert (events + [e])[1..] == events[1..] + [e];
      RunSplits(Next(s, events[0]), events[1..], e);
    }
  }

  lemma {:induction false} HistoryHoldsTheSweep(s: State, events: seq<Event>, p: nat)
    requires s.Valid() && IsRun(s, events) && p < s.Pairs()
    ensures End(s, events).sweepAt[p] == ArmedFor(s.sweepAt[p], events, p)
    decreases |events|
  {
    if events != [] {
      var front := events[..|events| - 1];
      var e := events[|events| - 1];
      assert events == front + [e];
      RunSplits(s, front, e);
      HistoryHoldsTheSweep(s, front, p);
    }
  }

  /** After any run, a pop is a sweep only of the pair it names, only as a full pass, and exactly when
      that pair's armed instant has come; a plan leaves the sweep armed. */
  lemma {:induction false} SweepsComeFromTheirOwnArming(s: State, events: seq<Event>, now: nat, job: Job)
    requires s.Valid() && IsRun(s, events + [Pop(now, Some(job))])
    ensures job.pair < s.Pairs()
    ensures var armed := ArmedFor(s.sweepAt[job.pair], events, job.pair);
            job.cause == Sweep <==> job.kind == Sync && armed.Some? && armed.value <= now
    ensures job.kind == Plan ==>
              ArmedFor(s.sweepAt[job.pair], events + [Pop(now, Some(job))], job.pair)
              == ArmedFor(s.sweepAt[job.pair], events, job.pair)
  {
    RunSplits(s, events, Pop(now, Some(job)));
    var t := End(s, events);
    if t.explicit != [] { assert t.explicit[0] in t.explicit; }
    HistoryHoldsTheSweep(s, events, job.pair);
    assert (events + [Pop(now, Some(job))])[..|events|] == events;
  }

  /** Booting seeds every pair due, and the first n pops run them all, in config order. */
  lemma {:induction false} BootRunsEveryPairInOrder(cadences: seq<nat>, now: nat, events: seq<Event>, i: nat)
    requires cadences != [] && forall p :: 0 <= p < |cadences| ==> cadences[p] > 0
    requires Boot(cadences, now).Valid() && IsRun(Boot(cadences, now), events)
    requires forall k :: 0 <= k < |events| ==> events[k].Pop? && events[k].now == now
    requires i < |events|
    ensures events[i].job == if i < |cadences| then Some(Job(i, Sync, Timer)) else None
  {
    BootPops(Boot(cadences, now), now, events, i, 0);
  }

  /** Pairs below `ran` have run, the rest are due at `now`. */
  ghost predicate Booting(s: State, now: nat, ran: nat) {
    && s.Valid() && s.explicit == [] && ran <= s.Pairs()
    && s.cursor == (if ran < s.Pairs() then ran else 0)
    && (forall p :: 0 <= p < s.Pairs() ==> s.sweepAt[p] == None)
    && (forall p :: 0 <= p < ran ==> s.nextDue[p] > now)
    && (forall p :: ran <= p < s.Pairs() ==> s.nextDue[p] == now)
  }

  lemma {:induction false} BootPops(s: State, now: nat, events: seq<Event>, i: nat, ran: nat)
    requires Booting(s, now, ran) && IsRun(s, events)
    requires forall k :: 0 <= k < |events| ==> events[k].Pop? && events[k].now == now
    requires i < |events|
    ensures events[i].job == if ran + i < s.Pairs() then Some(Job(ran + i, Sync, Timer)) else None
    decreases i
  {
    if ran < s.Pairs() {
      assert s.IsDue(ran, now) && s.Distance(ran) == 0;
      assert events[0].job.Some? && s.Distance(events[0].job.value.pair) == 0;
    }
    if i > 0 {
      BootPops(Next(s, events[0]), now, events[1..], i - 1, if ran < s.Pairs() then ran + 1 else ran);
    }
  }
}
