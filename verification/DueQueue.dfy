/** src/due_queue.rs: the folder-pair queue itself, each method proved to make one step of the state
    machine in Scheduling.dfy. */
module DueQueue {
  import opened Basics
  import opened Scheduling

  /** `sum` is the duration added to the instant, and 946 080 000 seconds added where the clock, which
      counts seconds in 63 bits, cannot represent that. */
  predicate Adds(at: nat, span: nat, sum: nat) {
    sum == at + if at + span < 0x8000_0000_0000_0000 * NANOS then span else 946_080_000 * NANOS
  }

  /** What a pop turns `s` into, field by field: the request answered leaves the queue, or the cursor passes
      the pair and its timer is set on provisionally; a sweep answered is disarmed; no cadence changes. */
  ghost predicate PopLeaves(s: State, now: nat, job: Option<Job>, t: State) {
    if job.None? then t == s
    else
      var p := job.value.pair;
      && p < |s.nextDue| == |s.sweepAt| == |s.cadence| == |t.nextDue| && t.cadence == s.cadence
      && t.sweepAt == (if job.value.cause == Sweep then s.sweepAt[p := None] else s.sweepAt)
      && if s.explicit != [] then t.explicit == s.explicit[1..] && t.nextDue == s.nextDue && t.cursor == s.cursor
         else t.explicit == [] && t.cursor == (p + 1) % |s.nextDue|
              && t.nextDue == s.nextDue[p := t.nextDue[p]] && Adds(now, s.cadence[p], t.nextDue[p])
  }

  lemma {:induction false} LeavesWhatItShould(s: State, now: nat, job: Option<Job>)
    requires s.Valid() && s.Answers(now, job)
    ensures PopLeaves(s, now, job, After(s, Event.Pop(now, job)))
  {
    if job.Some? {
      assert s.explicit != [] ==> s.explicit[0] in s.explicit;
      Wrap(job.value.pair + 1, s.Pairs());
      LaterAdds(now, s.cadence[job.value.pair]);
    }
  }

  lemma {:induction false} LaterAdds(at: nat, span: nat)
    ensures Adds(at, span, Later(at, span))
  {}

  class DueQueue {
    var nextDue: seq<nat>
    var cadence: seq<nat>
    var sweepAt: seq<Option<nat>>
    var explicit: seq<(nat, JobKind)>
    var cursor: nat

    function Abs(): State
      reads this
    {
      State(nextDue, cadence, sweepAt, explicit, cursor)
    }

    ghost predicate Valid()
      reads this
    {
      Abs().Valid()
    }

    constructor (cadences: seq<nat>, now: nat)
      requires cadences != [] && forall p :: 0 <= p < |cadences| ==> cadences[p] > 0
      ensures Valid() && Abs() == Boot(cadences, now)
      ensures |nextDue| == |sweepAt| == |cadences| && cadence == cadences && explicit == [] && cursor == 0
      ensures forall p :: 0 <= p < |cadences| ==> nextDue[p] == now && sweepAt[p] == None
    {
      nextDue := seq(|cadences|, _ => now);
      cadence := cadences;
      sweepAt := seq(|cadences|, _ => None);
      explicit := [];
      cursor := 0;
    }

    method SetCadence(pair: nat, span: nat)
      requires Valid() && pair < Abs().Pairs() && span > 0
      modifies this`cadence
      ensures Valid() && Abs() == After(old(Abs()), Event.SetCadence(pair, span))
      ensures cadence == old(cadence)[pair := span]
    {
      cadence := cadence[pair := span];
    }

    method Request(pair: nat, kind: JobKind)
      requires Valid() && pair < Abs().Pairs()
      modifies this`explicit
      ensures Valid() && Abs() == After(old(Abs()), Event.Request(pair, kind))
      ensures explicit == old(explicit) + if (pair, kind) in old(explicit) then [] else [(pair, kind)]
    {
      if (pair, kind) !in explicit {
        explicit := explicit + [(pair, kind)];
      }
    }

    method SetSweep(pair: nat, at: Option<nat>)
      requires Valid() && pair < Abs().Pairs()
      modifies this`sweepAt
      ensures Valid() && Abs() == After(old(Abs()), Event.SetSweep(pair, at))
      ensures sweepAt == old(sweepAt)[pair := at]
    {
      sweepAt := sweepAt[pair := at];
    }

    /** Answers with the one job the state machine allows at `now` and takes its step. */
    method Pop(now: nat) returns (job: Option<Job>)
      requires Valid()
      modifies this
      ensures old(Abs()).Answers(now, job)
      ensures Valid() && Abs() == After(old(Abs()), Event.Pop(now, job))
      ensures PopLeaves(old(Abs()), now, job, Abs())
    {
      hide PopLeaves;
      ghost var was := Abs();
      if explicit != [] {
        var (pair, kind) := explicit[0];
        explicit := explicit[1..];
        var overdue := false;
        if kind == Sync {
          overdue := TakeOverdueSweep(pair, now);
        }
        job := Some(Job(pair, kind, if overdue then Sweep else Explicit));
        StepKeepsValid(was, Event.Pop(now, job));
        LeavesWhatItShould(was, now, job);
        return;
      }
      var chosen := Earliest(now);
      if chosen.None? {
        assert Abs() == was;
        LeavesWhatItShould(was, now, None);
        return None;
      }
      var pair := chosen.value;
      var pairs := |nextDue|;
      Wrap(pair + 1, pairs);
      cursor := (pair + 1) % pairs;
      var overdue := TakeOverdueSweep(pair, now);
      nextDue := nextDue[pair := Later(now, cadence[pair])];
      job := Some(Job(pair, Sync, if overdue then Sweep else Timer));
      StepKeepsValid(was, Event.Pop(now, job));
      LeavesWhatItShould(was, now, job);
    }

    /** The scan: round the ring from the cursor, keeping the first pair with a strictly earlier deadline. */
    method Earliest(now: nat) returns (chosen: Option<nat>)
      requires Valid()
      ensures chosen.None? ==> forall p :: 0 <= p < Abs().Pairs() ==> !Abs().IsDue(p, now)
      ensures chosen.Some? ==> Abs().IsNext(chosen.value, now)
    {
      chosen := None;
      ghost var s := Abs();
      var pairs := |nextDue|;
      for offset := 0 to pairs
        invariant chosen.None? ==> forall p :: 0 <= p < pairs && s.Distance(p) < offset ==> !s.IsDue(p, now)
        invariant chosen.Some? ==> chosen.value < pairs && s.IsDue(chosen.value, now) && s.Distance(chosen.value) < offset
        invariant chosen.Some? ==> forall p :: 0 <= p < pairs && s.Distance(p) < offset && s.IsDue(p, now) ==>
                    s.Deadline(chosen.value) < s.Deadline(p)
                    || (s.Deadline(chosen.value) == s.Deadline(p) && s.Distance(chosen.value) <= s.Distance(p))
      {
        Wrap(cursor + offset, pairs);
        var pair := (cursor + offset) % pairs;
        assert s.Distance(pair) == offset;
        assert forall p :: 0 <= p < pairs && s.Distance(p) == offset ==> p == pair;
        if IsDue(pair, now) && (chosen.None? || Deadline(pair) < Deadline(chosen.value)) {
          chosen := Some(pair);
        }
      }
    }

    /** True exactly for an overdue sweep, which is then disarmed; otherwise nothing changes. */
    method TakeOverdueSweep(pair: nat, now: nat) returns (taken: bool)
      requires Abs().Shaped() && pair < Abs().Pairs()
      modifies this`sweepAt
      ensures taken == old(Abs()).SweepOverdue(pair, now)
      ensures taken <==> old(sweepAt[pair]).Some? && old(sweepAt[pair]).value <= now
      ensures sweepAt == if taken then old(sweepAt)[pair := None] else old(sweepAt)
    {
      if sweepAt[pair].Some? && sweepAt[pair].value <= now {
        sweepAt := sweepAt[pair := None];
        taken := true;
      } else {
        taken := false;
      }
    }

    method Rearm(pair: nat, from: nat)
      requires Valid() && pair < Abs().Pairs()
      modifies this`nextDue
      ensures Valid() && Abs() == After(old(Abs()), Event.Rearm(pair, from))
      ensures nextDue == old(nextDue)[pair := nextDue[pair]] && Adds(from, cadence[pair], nextDue[pair])
    {
      LaterAdds(from, cadence[pair]);
      nextDue := nextDue[pair := Later(from, cadence[pair])];
    }

    /** The timer ends at the smaller of what it was and `to`. */
    method Tighten(pair: nat, to: nat)
      requires Valid() && pair < Abs().Pairs()
      modifies this`nextDue
      ensures Valid() && Abs() == After(old(Abs()), Event.Tighten(pair, to))
      ensures nextDue == old(nextDue)[pair := nextDue[pair]]
      ensures nextDue[pair] <= old(nextDue[pair]) && nextDue[pair] <= to
      ensures nextDue[pair] == old(nextDue[pair]) || nextDue[pair] == to
    {
      if to < nextDue[pair] {
        nextDue := nextDue[pair := to];
      }
    }

    /** The least deadline over all pairs, which is the least instant of any timer or armed sweep. */
    method NextWake() returns (wake: nat)
      requires Valid()
      ensures exists p :: 0 <= p < |nextDue| && (wake == nextDue[p] || (p < |sweepAt| && sweepAt[p] == Some(wake)))
      ensures forall p :: 0 <= p < |nextDue| ==> wake <= nextDue[p]
      ensures forall p :: 0 <= p < |sweepAt| && sweepAt[p].Some? ==> wake <= sweepAt[p].value
      ensures exists p :: 0 <= p < Abs().Pairs() && wake == Abs().Deadline(p)
      ensures forall p :: 0 <= p < Abs().Pairs() ==> wake <= Abs().Deadline(p)
    {
      wake := Deadline(0);
      for p := 1 to |nextDue|
        invariant exists q :: 0 <= q < p && wake == Abs().Deadline(q)
        invariant forall q :: 0 <= q < p ==> wake <= Abs().Deadline(q)
      {
        if Deadline(p) < wake {
          wake := Deadline(p);
        }
      }
      forall p | 0 <= p < |nextDue|
        ensures wake <= nextDue[p] && (sweepAt[p].Some? ==> wake <= sweepAt[p].value)
      {
        assert wake <= Abs().Deadline(p);
      }
    }

    function Deadline(pair: nat): nat
      requires Abs().Shaped() && pair < Abs().Pairs()
      reads this
    {
      Abs().Deadline(pair)
    }

    predicate IsDue(pair: nat, now: nat)
      requires Abs().Shaped() && pair < Abs().Pairs()
      reads this
    {
      Abs().IsDue(pair, now)
    }
  }
}
