/** The op stream of a diff and the counts read off it: an edit script is whatever replays one version
    into the other, and its facts pair removals with insertions inside each maximal changed run. */
module EditScript {
  import Lcs

  datatype Op = Keep | OnlyBefore | OnlyAfter

  datatype VersionFacts = VersionFacts(added: nat, changed: nat, removed: nat) {
    /** src/ancestor.rs `is_unchanged`. */
    predicate IsUnchanged() { added == 0 && changed == 0 && removed == 0 }
  }

  const NO_FACTS := VersionFacts(0, 0, 0)

  /** `ops` consumes exactly `before` and produces exactly `after`: a kept line is in both. */
  ghost predicate Replays<T>(ops: seq<Op>, before: seq<T>, after: seq<T>) {
    if ops == [] then before == [] && after == []
    else match ops[0]
      case Keep => before != [] && after != [] && before[0] == after[0] && Replays(ops[1..], before[1..], after[1..])
      case OnlyBefore => before != [] && Replays(ops[1..], before[1..], after)
      case OnlyAfter => after != [] && Replays(ops[1..], before, after[1..])
  }

  function Count(ops: seq<Op>, op: Op): nat {
    if ops == [] then 0 else (if ops[0] == op then 1 else 0) + Count(ops[1..], op)
  }

  function Repeat(op: Op, n: nat): (r: seq<Op>)
    ensures |r| == n && forall k :: 0 <= k < n ==> r[k] == op
  {
    if n == 0 then [] else [op] + Repeat(op, n - 1)
  }

  /** The stream the greedy walk over an exact table takes; a tie drops the ancestor's line first. */
  function Stream<T(==)>(before: seq<T>, after: seq<T>): seq<Op>
    decreases |before| + |after|
  {
    if before == [] || after == [] then Repeat(OnlyBefore, |before|) + Repeat(OnlyAfter, |after|)
    else if before[0] == after[0] then [Keep] + Stream(before[1..], after[1..])
    else if Lcs.Length(before[1..], after) >= Lcs.Length(before, after[1..])
    then [OnlyBefore] + Stream(before[1..], after)
    else [OnlyAfter] + Stream(before, after[1..])
  }

  lemma {:induction false} CountAppend(a: seq<Op>, b: seq<Op>, op: Op)
    ensures Count(a + b, op) == Count(a, op) + Count(b, op)
  {
    if a == [] {
      assert a + b == b;
    } else {
      assert (a + b)[1..] == a[1..] + b;
      CountAppend(a[1..], b, op);
    }
  }

  lemma {:induction false} CountRepeat(op: Op, n: nat, other: Op)
    ensures Count(Repeat(op, n), other) == if op == other then n else 0
  {
    if n > 0 {
      assert Repeat(op, n)[1..] == Repeat(op, n - 1);
      CountRepeat(op, n - 1, other);
    }
  }

  lemma {:induction false} ReplaysOneSided<T>(before: seq<T>, after: seq<T>)
    requires before == [] || after == []
    ensures Replays(Repeat(OnlyBefore, |before|) + Repeat(OnlyAfter, |after|), before, after)
    decreases |before| + |after|
  {
    var ops := Repeat(OnlyBefore, |before|) + Repeat(OnlyAfter, |after|);
    if before != [] {
      assert ops[1..] == Repeat(OnlyBefore, |before[1..]|) + Repeat(OnlyAfter, |after|);
      ReplaysOneSided(before[1..], after);
    } else if after != [] {
      assert ops[1..] == Repeat(OnlyBefore, |before|) + Repeat(OnlyAfter, |after[1..]|);
      ReplaysOneSided(before, after[1..]);
    }
  }

  /** The walk's stream is a correct edit script. */
  lemma {:induction false} StreamReplays<T>(before: seq<T>, after: seq<T>)
    ensures Replays(Stream(before, after), before, after)
    decreases |before| + |after|
  {
    var ops := Stream(before, after);
    if before == [] || after == [] {
      ReplaysOneSided(before, after);
    } else if before[0] == after[0] {
      assert ops[1..] == Stream(before[1..], after[1..]);
      StreamReplays(before[1..], after[1..]);
    } else if Lcs.Length(before[1..], after) >= Lcs.Length(before, after[1..]) {
      assert ops[1..] == Stream(before[1..], after);
      StreamReplays(before[1..], after);
    } else {
      assert ops[1..] == Stream(before, after[1..]);
      StreamReplays(before, after[1..]);
    }
  }

  lemma {:induction false} ReplaysConcat<T>(ops: seq<Op>, before: seq<T>, after: seq<T>,
                                            more: seq<Op>, before': seq<T>, after': seq<T>)
    requires Replays(ops, before, after) && Replays(more, before', after')
    ensures Replays(ops + more, before + before', after + after')
  {
    if ops == [] {
      assert ops + more == more && before + before' == before' && after + after' == after';
    } else {
      assert (ops + more)[1..] == ops[1..] + more;
      if before != [] { assert (before + before')[1..] == before[1..] + before'; }
      if after != [] { assert (after + after')[1..] == after[1..] + after'; }
      match ops[0]
      case Keep => ReplaysConcat(ops[1..], before[1..], after[1..], more, before', after');
      case OnlyBefore => ReplaysConcat(ops[1..], before[1..], after, more, before', after');
      case OnlyAfter => ReplaysConcat(ops[1..], before, after[1..], more, before', after');
    }
  }

  lemma {:induction false} ReplaysKeepAll<T>(lines: seq<T>)
    ensures Replays(Repeat(Keep, |lines|), lines, lines)
  {
    if lines != [] {
      assert Repeat(Keep, |lines|)[1..] == Repeat(Keep, |lines[1..]|);
      ReplaysKeepAll(lines[1..]);
    }
  }

  /** A script stays a script when both versions gain one shared head and one shared tail. */
  lemma {:induction false} KeepAround<T>(ops: seq<Op>, before: seq<T>, after: seq<T>, head: seq<T>, tail: seq<T>)
    requires Replays(ops, before, after)
    ensures Replays(Repeat(Keep, |head|) + ops + Repeat(Keep, |tail|), head + before + tail, head + after + tail)
  {
    ReplaysKeepAll(head);
    ReplaysKeepAll(tail);
    ReplaysConcat(Repeat(Keep, |head|), head, head, ops, before, after);
    ReplaysConcat(Repeat(Keep, |head|) + ops, head + before, head + after, Repeat(Keep, |tail|), tail, tail);
  }

  /** Any edit script accounts for every line of both versions. */
  lemma {:induction false} ReplayCounts<T>(ops: seq<Op>, before: seq<T>, after: seq<T>)
    requires Replays(ops, before, after)
    ensures Count(ops, Keep) + Count(ops, OnlyBefore) == |before|
    ensures Count(ops, Keep) + Count(ops, OnlyAfter) == |after|
  {
    if ops != [] {
      match ops[0]
      case Keep => ReplayCounts(ops[1..], before[1..], after[1..]);
      case OnlyBefore => ReplayCounts(ops[1..], before[1..], after);
      case OnlyAfter => ReplayCounts(ops[1..], before, after[1..]);
    }
  }

  /** No edit script keeps more lines than a longest common subsequence has. */
  lemma {:induction false} KeepsWithinLcs<T>(ops: seq<Op>, before: seq<T>, after: seq<T>)
    requires Replays(ops, before, after)
    ensures Count(ops, Keep) <= Lcs.Length(before, after)
  {
    var kept := KeptLines(ops, before, after);
    Lcs.Bound(kept, before, after);
  }

  /** What an edit script keeps is a common subsequence. */
  lemma {:induction false} KeptLines<T>(ops: seq<Op>, before: seq<T>, after: seq<T>) returns (kept: seq<T>)
    requires Replays(ops, before, after)
    ensures Lcs.Common(kept, before, after) && |kept| == Count(ops, Keep)
  {
    if ops == [] {
      kept := [];
    } else {
      match ops[0]
      case Keep =>
        var rest := KeptLines(ops[1..], before[1..], after[1..]);
        kept := [before[0]] + rest;
        assert kept[1..] == rest;
      case OnlyBefore =>
        kept := KeptLines(ops[1..], before[1..], after);
        Lcs.SkipHead(kept, before);
      case OnlyAfter =>
        kept := KeptLines(ops[1..], before, after[1..]);
        Lcs.SkipHead(kept, after);
    }
  }

  /** The greedy walk keeps as many lines as any script can. */
  lemma {:induction false} StreamKeeps<T>(before: seq<T>, after: seq<T>)
    ensures Count(Stream(before, after), Keep) == Lcs.Length(before, after)
    decreases |before| + |after|
  {
    var ops := Stream(before, after);
    if before == [] || after == [] {
      CountAppend(Repeat(OnlyBefore, |before|), Repeat(OnlyAfter, |after|), Keep);
      CountRepeat(OnlyBefore, |before|, Keep);
      CountRepeat(OnlyAfter, |after|, Keep);
    } else if before[0] == after[0] {
      assert ops[1..] == Stream(before[1..], after[1..]);
      StreamKeeps(before[1..], after[1..]);
    } else if Lcs.Length(before[1..], after) >= Lcs.Length(before, after[1..]) {
      assert ops[1..] == Stream(before[1..], after);
      StreamKeeps(before[1..], after);
    } else {
      assert ops[1..] == Stream(before, after[1..]);
      StreamKeeps(before, after[1..]);
    }
  }

  /** Which of two ops a script is read by first: a kept line, then a dropped one, then an added one. */
  function Rank(op: Op): nat { match op case Keep => 0 case OnlyBefore => 1 case OnlyAfter => 2 }

  /** Where the two first differ, `a` has the op of lower rank. */
  predicate NoLater(a: seq<Op>, b: seq<Op>) {
    a == [] || (b != [] && (Rank(a[0]) < Rank(b[0]) || (a[0] == b[0] && NoLater(a[1..], b[1..]))))
  }

  /** Which shortest script the walk takes: of all that keep as many lines, the first in that order. Two
      lines that agree are kept, and between two equally good choices the ancestor's line goes first. */
  lemma {:induction false} StreamComesFirst<T>(before: seq<T>, after: seq<T>, script: seq<Op>)
    requires Replays(script, before, after) && Count(script, Keep) == Lcs.Length(before, after)
    ensures NoLater(Stream(before, after), script)
    decreases |before| + |after|
  {
    if before == [] && after == [] {
    } else if before == [] {
      assert Stream(before, after) == [OnlyAfter] + Stream(before, after[1..]);
      StreamComesFirst(before, after[1..], script[1..]);
    } else if after == [] {
      assert Stream(before, after) == [OnlyBefore] + Stream(before[1..], after);
      StreamComesFirst(before[1..], after, script[1..]);
    } else {
      FirstChoice(before, after, script);
      assert Stream(before, after)[1..] ==
             if before[0] == after[0] then Stream(before[1..], after[1..])
             else if Lcs.Length(before[1..], after) >= Lcs.Length(before, after[1..]) then Stream(before[1..], after)
             else Stream(before, after[1..]);
      match script[0]
      case Keep => StreamComesFirst(before[1..], after[1..], script[1..]);
      case OnlyBefore => if before[0] != after[0] { StreamComesFirst(before[1..], after, script[1..]); }
      case OnlyAfter =>
        if before[0] != after[0] && Lcs.Length(before[1..], after) < Lcs.Length(before, after[1..]) {
          StreamComesFirst(before, after[1..], script[1..]);
        }
    }
  }

  /** A shortest script drops the ancestor's line only where that costs no kept line. */
  lemma {:induction false} FirstChoice<T>(before: seq<T>, after: seq<T>, script: seq<Op>)
    requires before != [] && after != []
    requires Replays(script, before, after) && Count(script, Keep) == Lcs.Length(before, after)
    ensures script != [] && (script[0] == Keep ==> before[0] == after[0])
    ensures before[0] != after[0] && script[0] == OnlyBefore ==>
              Lcs.Length(before[1..], after) >= Lcs.Length(before, after[1..])
  {
    if script[0] == OnlyBefore {
      KeepsWithinLcs(script[1..], before[1..], after);
    }
  }

  // ----- runs

  /** A half-open range of `ops` holding no Keep, which neither neighbour could extend. */
  ghost predicate IsMaximalRun(ops: seq<Op>, start: nat, end: nat) {
    && start < end <= |ops|
    && (forall k :: start <= k < end ==> ops[k] != Keep)
    && (start == 0 || ops[start - 1] == Keep)
    && (end == |ops| || ops[end] == Keep)
  }

  function RunEnd(ops: seq<Op>, at: nat): (end: nat)
    requires at <= |ops|
    ensures at <= end <= |ops|
    ensures forall k :: at <= k < end ==> ops[k] != Keep
    ensures end < |ops| ==> ops[end] == Keep
    decreases |ops| - at
  {
    if at == |ops| || ops[at] == Keep then at else RunEnd(ops, at + 1)
  }

  /** The changed runs at or after `at`, as (start, end) pairs in file order. */
  function Runs(ops: seq<Op>, at: nat): seq<(nat, nat)>
    requires at <= |ops|
    decreases |ops| - at
  {
    if at == |ops| then []
    else if ops[at] == Keep then Runs(ops, at + 1)
    else [(at, RunEnd(ops, at))] + Runs(ops, RunEnd(ops, at))
  }

  /** `Runs` lists exactly the maximal runs, each once and in order. */
  lemma {:induction false} RunsAreTheMaximalRuns(ops: seq<Op>, at: nat)
    requires at <= |ops| && (at == 0 || at == |ops| || ops[at] == Keep || ops[at - 1] == Keep)
    ensures forall start: nat, end: nat ::
              (start, end) in Runs(ops, at) <==> at <= start && IsMaximalRun(ops, start, end)
    ensures forall i, j :: 0 <= i < j < |Runs(ops, at)| ==> Runs(ops, at)[i].1 <= Runs(ops, at)[j].0
    decreases |ops| - at
  {
    if at == |ops| {
    } else if ops[at] == Keep {
      RunsAreTheMaximalRuns(ops, at + 1);
    } else {
      var end := RunEnd(ops, at);
      var rest := Runs(ops, end);
      RunsAreTheMaximalRuns(ops, end);
      assert IsMaximalRun(ops, at, end);
      forall s: nat, e: nat | at <= s && IsMaximalRun(ops, s, e) ensures (s, e) in [(at, end)] + rest {
        if s < end {
          assert s == at && e == end;
        }
      }
      forall j | 0 <= j < |rest| ensures end <= rest[j].0 { assert (rest[j].0, rest[j].1) in rest; }
    }
  }

  /** What one run contributes: removals paired with insertions, then whichever is left over. */
  function RunFacts(block: seq<Op>): (facts: VersionFacts)
    ensures facts.removed + facts.changed == Count(block, OnlyBefore)
    ensures facts.added + facts.changed == Count(block, OnlyAfter)
    ensures facts.added == 0 || facts.removed == 0
  {
    var before := Count(block, OnlyBefore);
    var after := Count(block, OnlyAfter);
    if before <= after then VersionFacts(after - before, before, 0) else VersionFacts(0, after, before - after)
  }

  function Plus(f: VersionFacts, g: VersionFacts): VersionFacts {
    VersionFacts(f.added + g.added, f.changed + g.changed, f.removed + g.removed)
  }

  ghost predicate RunsWithin(ops: seq<Op>, runs: seq<(nat, nat)>) {
    forall k :: 0 <= k < |runs| ==> runs[k].0 <= runs[k].1 <= |ops|
  }

  ghost function Total(ops: seq<Op>, runs: seq<(nat, nat)>): VersionFacts
    requires RunsWithin(ops, runs)
  {
    if runs == [] then NO_FACTS else Plus(RunFacts(ops[runs[0].0..runs[0].1]), Total(ops, runs[1..]))
  }

  /** The facts of an edit script: each changed run in turn, nothing across a kept line. */
  ghost function Facts(ops: seq<Op>): VersionFacts { FactsFrom(ops, 0) }

  ghost function FactsFrom(ops: seq<Op>, at: nat): VersionFacts
    requires at <= |ops|
    decreases |ops| - at
  {
    if at == |ops| then NO_FACTS
    else if ops[at] == Keep then FactsFrom(ops, at + 1)
    else Plus(RunFacts(ops[at..RunEnd(ops, at)]), FactsFrom(ops, RunEnd(ops, at)))
  }

  /** The facts are the maximal changed runs, summed. */
  lemma {:induction false} FactsSumTheRuns(ops: seq<Op>, at: nat)
    requires at <= |ops|
    ensures RunsWithin(ops, Runs(ops, at)) && FactsFrom(ops, at) == Total(ops, Runs(ops, at))
    decreases |ops| - at
  {
    if at == |ops| {
    } else if ops[at] == Keep {
      FactsSumTheRuns(ops, at + 1);
    } else {
      var end := RunEnd(ops, at);
      FactsSumTheRuns(ops, end);
      assert Runs(ops, at)[1..] == Runs(ops, end);
    }
  }

  lemma {:induction false} BlockHoldsNoKeep(block: seq<Op>)
    requires forall k :: 0 <= k < |block| ==> block[k] != Keep
    ensures Count(block, Keep) == 0
    ensures |block| == Count(block, OnlyBefore) + Count(block, OnlyAfter)
  {
    if block != [] { BlockHoldsNoKeep(block[1..]); }
  }

  /** Pairing moves counts between columns but never invents or drops an edit. */
  lemma {:induction false} FactsConserveEdits(ops: seq<Op>, at: nat)
    requires at <= |ops|
    ensures FactsFrom(ops, at).removed + FactsFrom(ops, at).changed == Count(ops[at..], OnlyBefore)
    ensures FactsFrom(ops, at).added + FactsFrom(ops, at).changed == Count(ops[at..], OnlyAfter)
    decreases |ops| - at
  {
    if at == |ops| {
    } else if ops[at] == Keep {
      FactsConserveEdits(ops, at + 1);
      assert ops[at..][1..] == ops[at + 1..];
    } else {
      var end := RunEnd(ops, at);
      FactsConserveEdits(ops, end);
      assert ops[at..] == ops[at..end] + ops[end..];
      CountAppend(ops[at..end], ops[end..], OnlyBefore);
      CountAppend(ops[at..end], ops[end..], OnlyAfter);
    }
  }

  // ----- kept lines around a script

  lemma {:induction false} RunEndBehindKeep(ops: seq<Op>, at: nat)
    requires at <= |ops|
    ensures RunEnd([Keep] + ops, at + 1) == RunEnd(ops, at) + 1
    decreases |ops| - at
  {
    if at < |ops| && ops[at] != Keep { RunEndBehindKeep(ops, at + 1); }
  }

  lemma {:induction false} RunEndBeforeKeep(ops: seq<Op>, at: nat)
    requires at <= |ops|
    ensures RunEnd(ops + [Keep], at) == RunEnd(ops, at)
    decreases |ops| - at
  {
    if at < |ops| && ops[at] != Keep { RunEndBeforeKeep(ops, at + 1); }
  }

  lemma {:induction false} FactsBehindKeep(ops: seq<Op>, at: nat)
    requires at <= |ops|
    ensures FactsFrom([Keep] + ops, at + 1) == FactsFrom(ops, at)
    decreases |ops| - at
  {
    hide RunFacts, RunEnd;
    if at == |ops| {
    } else if ops[at] == Keep {
      FactsBehindKeep(ops, at + 1);
    } else {
      var end := RunEnd(ops, at);
      RunEndBehindKeep(ops, at);
      assert ([Keep] + ops)[at + 1..end + 1] == ops[at..end];
      FactsBehindKeep(ops, end);
    }
  }

  lemma {:induction false} FactsBeforeKeep(ops: seq<Op>, at: nat)
    requires at <= |ops|
    ensures FactsFrom(ops + [Keep], at) == FactsFrom(ops, at)
    decreases |ops| - at
  {
    hide RunFacts, RunEnd;
    if at == |ops| {
      assert FactsFrom(ops + [Keep], at + 1) == NO_FACTS;
    } else if ops[at] == Keep {
      FactsBeforeKeep(ops, at + 1);
    } else {
      var end := RunEnd(ops, at);
      RunEndBeforeKeep(ops, at);
      assert (ops + [Keep])[at..end] == ops[at..end];
      FactsBeforeKeep(ops, end);
    }
  }

  lemma {:induction false} FactsBehindKeeps(ops: seq<Op>, n: nat)
    ensures Facts(Repeat(Keep, n) + ops) == Facts(ops)
  {
    if n == 0 {
      assert Repeat(Keep, 0) + ops == ops;
    } else {
      var rest := Repeat(Keep, n - 1) + ops;
      FactsBehindKeeps(ops, n - 1);
      FactsBehindKeep(rest, 0);
      assert Repeat(Keep, n) + ops == [Keep] + rest;
      assert FactsFrom([Keep] + rest, 0) == FactsFrom([Keep] + rest, 1);
    }
  }

  lemma {:induction false} FactsBeforeKeeps(ops: seq<Op>, n: nat)
    ensures Facts(ops + Repeat(Keep, n)) == Facts(ops)
    decreases n
  {
    if n == 0 {
      assert ops + Repeat(Keep, 0) == ops;
    } else {
      FactsBeforeKeep(ops, 0);
      FactsBeforeKeeps(ops + [Keep], n - 1);
      assert ops + Repeat(Keep, n) == ops + [Keep] + Repeat(Keep, n - 1);
    }
  }

  /** Keeping lines before and behind a script changes none of its three counts. */
  lemma {:induction false} FactsIgnoreKeptEnds(ops: seq<Op>, h: nat, t: nat)
    ensures Facts(Repeat(Keep, h) + ops + Repeat(Keep, t)) == Facts(ops)
  {
    hide Facts;
    FactsBehindKeeps(ops, h);
    FactsBeforeKeeps(Repeat(Keep, h) + ops, t);
  }
}
