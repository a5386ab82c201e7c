/** src/ancestor.rs: how one side of a conflict moved from the last agreed version, as counts. */
module Ancestor {
  import opened Basics
  import opened EditScript
  import Lcs

  newtype u32 = n: int | 0 <= n < 0x1_0000_0000

  const MAX_DIFF_CELLS: nat := 250_000
  const USIZE_MAX: nat := 0xFFFF_FFFF_FFFF_FFFF

  // ----- what is compared

  function CommonPrefix<T(==)>(a: seq<T>, b: seq<T>): (n: nat)
    ensures n <= |a| && n <= |b| && a[..n] == b[..n]
    ensures n < |a| && n < |b| ==> a[n] != b[n]
  {
    if a != [] && b != [] && a[0] == b[0] then CommonPrefix(a[1..], b[1..]) + 1 else 0
  }

  function CommonSuffix<T(==)>(a: seq<T>, b: seq<T>): (n: nat)
    ensures n <= |a| && n <= |b|
    ensures n < |a| && n < |b| ==> a[|a| - 1 - n] != b[|b| - 1 - n]
  {
    if a != [] && b != [] && a[|a| - 1] == b[|b| - 1]
    then CommonSuffix(a[..|a| - 1], b[..|b| - 1]) + 1
    else 0
  }

  /** The differing middles: the agreeing head comes off first, then the agreeing tail of what is left. */
  function Middles<T(==)>(a: seq<T>, b: seq<T>): (seq<T>, seq<T>) {
    var head := CommonPrefix(a, b);
    var tail := CommonSuffix(a[head..], b[head..]);
    (a[head..|a| - tail], b[head..|b| - tail])
  }

  function Cells<T>(before: seq<T>, after: seq<T>): nat { (|before| + 1) * (|after| + 1) }

  /** What `compare_to_ancestor` answers, stated over the greedy stream of the middles. */
  ghost function Compared<T>(ancestor: seq<T>, current: seq<T>): Option<VersionFacts> {
    var (before, after) := Middles(ancestor, current);
    if Cells(before, after) > MAX_DIFF_CELLS then None else Some(Facts(Stream(before, after)))
  }

  // ----- the theorems

  /** The k-th line from the end. */
  function FromEnd<T>(a: seq<T>, k: nat): T
    requires 1 <= k <= |a|
  {
    a[|a| - k]
  }

  lemma {:induction false} SuffixAgreesAt<T>(a: seq<T>, b: seq<T>, k: nat)
    requires 1 <= k <= CommonSuffix(a, b)
    ensures FromEnd(a, k) == FromEnd(b, k)
  {
    if k > 1 { SuffixAgreesAt(a[..|a| - 1], b[..|b| - 1], k - 1); }
  }

  lemma {:induction false} SameTail<T>(a: seq<T>, b: seq<T>, n: nat)
    requires n <= |a| && n <= |b|
    requires forall k :: 1 <= k <= n ==> FromEnd(a, k) == FromEnd(b, k)
    ensures a[|a| - n..] == b[|b| - n..]
  {
    var (tailA, tailB) := (a[|a| - n..], b[|b| - n..]);
    forall i | 0 <= i < n ensures tailA[i] == tailB[i] {
      assert FromEnd(a, n - i) == FromEnd(b, n - i);
    }
  }

  lemma {:induction false} SuffixesAgree<T>(a: seq<T>, b: seq<T>)
    ensures var n := CommonSuffix(a, b); a[|a| - n..] == b[|b| - n..]
  {
    hide CommonSuffix, FromEnd;
    forall k | 1 <= k <= CommonSuffix(a, b) ensures FromEnd(a, k) == FromEnd(b, k) {
      SuffixAgreesAt(a, b, k);
    }
    SameTail(a, b, CommonSuffix(a, b));
  }

  /** A sequence is its head, its middle and its tail. */
  lemma {:induction false} ThreeParts<T>(a: seq<T>, h: nat, t: nat, head: seq<T>, tail: seq<T>)
    requires h + t <= |a| && head == a[..h] && tail == a[|a| - t..]
    ensures a == head + a[h..|a| - t] + tail
  {}

  lemma {:induction false} TailsAgree<T>(a: seq<T>, b: seq<T>, h: nat)
    requires h <= |a| && h <= |b|
    ensures var t := CommonSuffix(a[h..], b[h..]); a[|a| - t..] == b[|b| - t..]
  {
    hide CommonSuffix;
    var t := CommonSuffix(a[h..], b[h..]);
    SuffixesAgree(a[h..], b[h..]);
    assert a[h..][|a| - h - t..] == a[|a| - t..];
    assert b[h..][|b| - h - t..] == b[|b| - t..];
  }

  /** The middles sit between one shared head and one shared tail. */
  lemma {:induction false} MiddlesSplit<T>(a: seq<T>, b: seq<T>) returns (head: seq<T>, tail: seq<T>)
    ensures a == head + Middles(a, b).0 + tail && b == head + Middles(a, b).1 + tail
  {
    hide CommonPrefix, CommonSuffix;
    var h := CommonPrefix(a, b);
    var t := CommonSuffix(a[h..], b[h..]);
    head, tail := a[..h], a[|a| - t..];
    TailsAgree(a, b, h);
    ThreeParts(a, h, t, head, tail);
    ThreeParts(b, h, t, head, tail);
  }

  /** Nothing is left to trim: two middles that are not empty differ in their first and in their last line. */
  lemma {:induction false} MiddlesShareNoEnd<T>(a: seq<T>, b: seq<T>)
    ensures var (before, after) := Middles(a, b);
            before != [] && after != [] ==> before[0] != after[0] && before[|before| - 1] != after[|after| - 1]
  {
    hide CommonPrefix, CommonSuffix;
  }

  /** `a` and `b` are `x` and `y` between one shared head and one shared tail. */
  ghost predicate Around<T>(a: seq<T>, b: seq<T>, head: seq<T>, x: seq<T>, y: seq<T>, tail: seq<T>) {
    a == head + x + tail && b == head + y + tail
  }

  lemma {:induction false} PrefixCoversHead<T>(head: seq<T>, a: seq<T>, b: seq<T>)
    requires head <= a && head <= b
    ensures |head| <= CommonPrefix(a, b)
  {
    hide CommonPrefix;
    assert forall k :: 0 <= k < |head| ==> head[k] == a[k] == b[k];
  }

  /** The last `n` lines of the two are the same. */
  ghost predicate SameEnds<T>(a: seq<T>, b: seq<T>, n: nat) {
    n <= |a| && n <= |b| && forall k :: 1 <= k <= n ==> FromEnd(a, k) == FromEnd(b, k)
  }

  lemma {:induction false} SuffixCovers<T>(a: seq<T>, b: seq<T>, n: nat)
    requires SameEnds(a, b, n)
    ensures n <= CommonSuffix(a, b)
  {
    if n > 0 {
      assert FromEnd(a, 1) == FromEnd(b, 1);
      var (frontA, frontB) := (a[..|a| - 1], b[..|b| - 1]);
      forall k | 1 <= k <= n - 1 ensures FromEnd(frontA, k) == FromEnd(frontB, k) {
        assert FromEnd(a, k + 1) == FromEnd(b, k + 1);
      }
      SuffixCovers(frontA, frontB, n - 1);
    }
  }

  lemma {:induction false} EndsBehind<T>(a: seq<T>, b: seq<T>, h: nat, n: nat)
    requires SameEnds(a, b, n) && h + n <= |a| && h + n <= |b|
    ensures SameEnds(a[h..], b[h..], n)
  {
    forall k | 1 <= k <= n ensures FromEnd(a[h..], k) == FromEnd(b[h..], k) {
      assert FromEnd(a, k) == FromEnd(b, k);
    }
  }

  lemma {:induction false} SharedTail<T>(a: seq<T>, b: seq<T>, front: seq<T>, frontB: seq<T>, tail: seq<T>)
    requires a == front + tail && b == frontB + tail
    ensures SameEnds(a, b, |tail|)
  {
    forall k | 1 <= k <= |tail| ensures FromEnd(a, k) == FromEnd(b, k) {
      assert FromEnd(a, k) == tail[|tail| - k] == FromEnd(b, k);
    }
  }

  lemma {:induction false} TailCovered<T>(a: seq<T>, b: seq<T>, h: nat, n: nat)
    requires SameEnds(a, b, n) && h <= |a| && h <= |b|
    ensures var t := CommonSuffix(a[h..], b[h..]); n <= t || h + t == |a| || h + t == |b|
  {
    hide CommonSuffix, FromEnd;
    var shorter := if |a| < |b| then |a| else |b|;
    var m := if h + n <= shorter then n else shorter - h;
    assert SameEnds(a, b, m);
    EndsBehind(a, b, h, m);
    SuffixCovers(a[h..], b[h..], m);
  }

  /** Trimming takes as much as any shared head and tail would, even where the two overlap. */
  lemma {:induction false} MiddlesAreSmallest<T>(a: seq<T>, b: seq<T>, head: seq<T>, x: seq<T>, y: seq<T>, tail: seq<T>)
    requires Around(a, b, head, x, y, tail)
    ensures |Middles(a, b).0| <= |x| && |Middles(a, b).1| <= |y|
  {
    SharedTail(a, b, head + x, head + y, tail);
    HeadInFront(a, head, x, tail);
    HeadInFront(b, head, y, tail);
    PrefixCoversHead(head, a, b);
    TailCovered(a, b, CommonPrefix(a, b), |tail|);
    hide CommonPrefix, CommonSuffix, SameEnds;
  }

  lemma {:induction false} HeadInFront<T>(a: seq<T>, head: seq<T>, x: seq<T>, tail: seq<T>)
    requires a == head + x + tail
    ensures head <= a && |a| == |head| + |x| + |tail|
  {
    assert a == head + (x + tail);
  }

  lemma {:induction false} FewerCells(x: nat, y: nat, m: nat, n: nat)
    requires x <= m && y <= n
    ensures (x + 1) * (y + 1) <= (m + 1) * (n + 1)
  {
    assert (x + 1) * (y + 1) <= (m + 1) * (y + 1) <= (m + 1) * (n + 1);
  }

  /** Two versions are compared exactly when some shared head and tail leave little enough between them:
      a change in two long files costs what the change is worth, not what the files are. */
  lemma {:induction false} AnswersExactlyWhenAMiddleFits<T(!new)>(ancestor: seq<T>, current: seq<T>)
    ensures Compared(ancestor, current).Some? <==>
            exists head, x, y, tail :: Around(ancestor, current, head, x, y, tail) && (|x| + 1) * (|y| + 1) <= 250_000
  {
    hide Middles;
    var (before, after) := Middles(ancestor, current);
    var head, tail := MiddlesSplit(ancestor, current);
    assert Around(ancestor, current, head, before, after, tail);
    forall head, x, y, tail | Around(ancestor, current, head, x, y, tail) && (|x| + 1) * (|y| + 1) <= 250_000
      ensures Compared(ancestor, current).Some?
    {
      MiddlesAreSmallest(ancestor, current, head, x, y, tail);
      FewerCells(|before|, |after|, |x|, |y|);
    }
  }

  /** Minimality: the counts leave exactly a longest common subsequence of the FULL versions alone,
      whatever was trimmed, and so the length identity holds. */
  lemma {:induction false} CountsLeaveALongestCommonSubsequence<T(!new)>(ancestor: seq<T>, current: seq<T>, longest: nat)
    requires Compared(ancestor, current).Some?
    requires Lcs.IsLongest(longest, ancestor, current)
    ensures var facts := Compared(ancestor, current).value;
            && facts.removed + facts.changed == |ancestor| - longest
            && facts.added + facts.changed == |current| - longest
            && facts.added - facts.removed == |current| - |ancestor|
  {
    var (before, after) := Middles(ancestor, current);
    var ops := Stream(before, after);
    var head, tail := MiddlesSplit(ancestor, current);
    Lcs.LengthIsLongest(ancestor, current, longest);
    Lcs.Trim(head, before, after, tail);
    StreamReplays(before, after);
    StreamKeeps(before, after);
    ReplayCounts(ops, before, after);
    FactsConserveEdits(ops, 0);
    assert ops[0..] == ops;
  }

  /** No edit script from the ancestor to the current version removes or adds fewer lines. */
  lemma {:induction false} NoScriptIsShorter<T(!new)>(ancestor: seq<T>, current: seq<T>, script: seq<Op>)
    requires Compared(ancestor, current).Some? && Replays(script, ancestor, current)
    ensures var facts := Compared(ancestor, current).value;
            && facts.removed + facts.changed <= Count(script, OnlyBefore)
            && facts.added + facts.changed <= Count(script, OnlyAfter)
  {
    Lcs.LengthIsLongest(ancestor, current, Lcs.Length(ancestor, current));
    CountsLeaveALongestCommonSubsequence(ancestor, current, Lcs.Length(ancestor, current));
    ReplayCounts(script, ancestor, current);
    KeepsWithinLcs(script, ancestor, current);
  }

  /** The bound is met: keeping the trimmed head and tail around the walk's stream is a script from the
      ancestor to the current version, and read run by run it has exactly the three reported counts. */
  lemma {:induction false} AScriptHasTheseCounts<T(!new)>(ancestor: seq<T>, current: seq<T>) returns (script: seq<Op>)
    requires Compared(ancestor, current).Some?
    ensures Replays(script, ancestor, current)
    ensures Facts(script) == Compared(ancestor, current).value
    ensures var facts := Compared(ancestor, current).value;
            && facts.removed + facts.changed == Count(script, OnlyBefore)
            && facts.added + facts.changed == Count(script, OnlyAfter)
  {
    var (before, after) := Middles(ancestor, current);
    var head, tail := MiddlesSplit(ancestor, current);
    var ops := Stream(before, after);
    StreamReplays(before, after);
    KeepAround(ops, before, after, head, tail);
    script := Repeat(Keep, |head|) + ops + Repeat(Keep, |tail|);
    FactsIgnoreKeptEnds(ops, |head|, |tail|);
    FactsConserveEdits(script, 0);
    assert script[0..] == script;
  }

  /** "Unchanged" is said exactly of equal versions, which are never too far apart to compare. */
  lemma {:induction false} UnchangedExactlyWhenEqual<T(!new)>(ancestor: seq<T>, current: seq<T>)
    ensures Compared(ancestor, current).Some? && Compared(ancestor, current).value.IsUnchanged()
        <==> ancestor == current
  {
    var length := Lcs.Length(ancestor, current);
    Lcs.LengthIsLongest(ancestor, current, length);
    if ancestor == current {
      Lcs.Diagonal(ancestor);
      PrefixOfEqual(ancestor);
      assert Middles(ancestor, current) == ([], []);
      assert Cells(Middles(ancestor, current).0, Middles(ancestor, current).1) == 1;
      CountsLeaveALongestCommonSubsequence(ancestor, current, length);
    } else if Compared(ancestor, current).Some? && Compared(ancestor, current).value.IsUnchanged() {
      CountsLeaveALongestCommonSubsequence(ancestor, current, length);
      FullLengthMeansEqual(ancestor, current);
    }
  }

  lemma {:induction false} PrefixOfEqual<T>(a: seq<T>)
    ensures CommonPrefix(a, a) == |a|
  {
    if a != [] { PrefixOfEqual(a[1..]); }
  }

  lemma {:induction false} FullLengthMeansEqual<T>(a: seq<T>, b: seq<T>)
    requires Lcs.Length(a, b) == |a| == |b|
    ensures a == b
  {
    if a != [] {
      if a[0] == b[0] {
        FullLengthMeansEqual(a[1..], b[1..]);
        assert a == [a[0]] + a[1..] && b == [b[0]] + b[1..];
      } else {
        Lcs.LengthWithin(a[1..], b);
        Lcs.LengthWithin(a, b[1..]);
      }
    }
  }

  /** Runs separated by a kept line never pair: each maximal run is reported by itself. */
  lemma {:induction false} FactsSumTheMaximalRuns(ops: seq<Op>, start: nat, end: nat)
    ensures (start, end) in Runs(ops, 0) <==> IsMaximalRun(ops, start, end)
    ensures RunsWithin(ops, Runs(ops, 0)) && Facts(ops) == Total(ops, Runs(ops, 0))
  {
    RunsAreTheMaximalRuns(ops, 0);
    FactsSumTheRuns(ops, 0);
  }

  // ----- the method and its three loops

  lemma {:induction false} CellInside(i: nat, j: nat, rows: nat, columns: nat)
    requires i < rows && j < columns
    ensures 0 <= i * columns + j < rows * columns
  {
    assert (i + 1) * columns <= rows * columns;
    assert (i + 1) * columns == i * columns + columns;
  }

  lemma {:induction false} CellsDiffer(i: nat, j: nat, k: nat, l: nat, columns: nat)
    requires j < columns && l < columns && (i != k || j != l)
    ensures i * columns + j != k * columns + l
  {
    if i < k {
      assert (i + 1) * columns <= k * columns;
      assert (i + 1) * columns == i * columns + columns;
    } else if k < i {
      assert (k + 1) * columns <= i * columns;
      assert (k + 1) * columns == k * columns + columns;
    }
  }

  /** The flat table holds the LCS length of suffixes in every cell from row `i`, column `j` on. */
  ghost predicate Filled<T>(table: seq<u32>, before: seq<T>, after: seq<T>, i: nat, j: nat)
    requires |table| == Cells(before, after)
  {
    forall k: nat, l: nat {:trigger Cell(table, before, after, k, l)} ::
      k <= |before| && l <= |after| && (k > i || (k == i && l >= j) || k == |before| || l == |after|) ==>
        Cell(table, before, after, k, l) == Lcs.Length(before[k..], after[l..])
  }

  ghost function Cell<T>(table: seq<u32>, before: seq<T>, after: seq<T>, i: nat, j: nat): nat
    requires |table| == Cells(before, after) && i <= |before| && j <= |after|
  {
    CellInside(i, j, |before| + 1, |after| + 1);
    table[i * (|after| + 1) + j] as nat
  }

  method FillTable<T(==)>(before: seq<T>, after: seq<T>) returns (table: array<u32>)
    requires Cells(before, after) <= MAX_DIFF_CELLS
    ensures fresh(table) && table.Length == Cells(before, after)
    ensures Filled(table[..], before, after, 0, 0)
  {
    var columns := |after| + 1;
    table := new u32[(|before| + 1) * columns](_ => 0);
    var i := |before|;
    assert Filled(table[..], before, after, i, 0);
    while i > 0
      invariant 0 <= i <= |before|
      invariant Filled(table[..], before, after, i, 0)
    {
      i := i - 1;
      var j := |after|;
      while j > 0
        invariant 0 <= j <= |after|
        invariant Filled(table[..], before, after, i, j)
      {
        j := j - 1;
        var value := NextCell(table, before, after, i, j);
        ghost var was := table[..];
        CellInside(i, j, |before| + 1, columns);
        table[i * columns + j] := value;
        StoreKeepsFilled(was, before, after, i, j, value);
        assert table[..] == was[i * columns + j := value];
      }
    }
  }

  /** The recurrence for one cell, read from the row below and the column to the right. */
  method NextCell<T(==)>(table: array<u32>, before: seq<T>, after: seq<T>, i: nat, j: nat) returns (value: u32)
    requires Cells(before, after) <= MAX_DIFF_CELLS && table.Length == Cells(before, after)
    requires i < |before| && j < |after|
    requires Filled(table[..], before, after, i, j + 1)
    ensures value as nat == Lcs.Length(before[i..], after[j..])
  {
    var columns := |after| + 1;
    CellInside(i + 1, j + 1, |before| + 1, columns);
    CellInside(i + 1, j, |before| + 1, columns);
    CellInside(i, j + 1, |before| + 1, columns);
    ghost var below := Cell(table[..], before, after, i + 1, j);
    ghost var right := Cell(table[..], before, after, i, j + 1);
    ghost var across := Cell(table[..], before, after, i + 1, j + 1);
    assert before[i..][1..] == before[i + 1..] && after[j..][1..] == after[j + 1..];
    if before[i] == after[j] {
      Lcs.LengthWithin(before[i + 1..], after[j + 1..]);
      assert |after| + 1 <= Cells(before, after);
      value := table[(i + 1) * columns + (j + 1)] + 1;
    } else if table[(i + 1) * columns + j] < table[i * columns + (j + 1)] {
      value := table[i * columns + (j + 1)];
    } else {
      value := table[(i + 1) * columns + j];
    }
  }

  lemma {:induction false} StoreKeepsFilled<T>(table: seq<u32>, before: seq<T>, after: seq<T>, i: nat, j: nat, value: u32)
    requires |table| == Cells(before, after) && i < |before| && j < |after|
    requires Filled(table, before, after, i, j + 1)
    requires value as nat == Lcs.Length(before[i..], after[j..])
    requires i * (|after| + 1) + j < |table|
    ensures Filled(table[i * (|after| + 1) + j := value], before, after, i, j)
  {
    var stored := table[i * (|after| + 1) + j := value];
    forall k: nat, l: nat | k <= |before| && l <= |after| && (k > i || (k == i && l >= j) || k == |before| || l == |after|)
      ensures Cell(stored, before, after, k, l) == Lcs.Length(before[k..], after[l..])
    {
      if k != i || l != j {
        CellsDiffer(i, j, k, l, |after| + 1);
        CellInside(k, l, |before| + 1, |after| + 1);
        assert Cell(stored, before, after, k, l) == Cell(table, before, after, k, l);
      }
    }
  }

  /** The stream from one position is its first op and the stream from the position after it. */
  lemma {:induction false} StreamStep<T>(before: seq<T>, after: seq<T>, i: nat, j: nat, ops: seq<Op>)
    requires i < |before| && j < |after|
    ensures ops + Stream(before[i..], after[j..]) ==
            if before[i] == after[j] then ops + [Keep] + Stream(before[i + 1..], after[j + 1..])
            else if Lcs.Length(before[i + 1..], after[j..]) >= Lcs.Length(before[i..], after[j + 1..])
            then ops + [OnlyBefore] + Stream(before[i + 1..], after[j..])
            else ops + [OnlyAfter] + Stream(before[i..], after[j + 1..])
  {
    assert before[i..][1..] == before[i + 1..] && after[j..][1..] == after[j + 1..];
  }

  /** The greedy walk over a filled table. */
  method WalkTable<T(==)>(table: array<u32>, before: seq<T>, after: seq<T>) returns (ops: seq<Op>)
    requires table.Length == Cells(before, after) && Filled(table[..], before, after, 0, 0)
    ensures ops == Stream(before, after)
  {
    var columns := |after| + 1;
    ops := [];
    var i, j := 0, 0;
    while i < |before| && j < |after|
      invariant 0 <= i <= |before| && 0 <= j <= |after|
      invariant ops + Stream(before[i..], after[j..]) == Stream(before, after)
      decreases |before| + |after| - i - j
    {
      CellInside(i + 1, j, |before| + 1, columns);
      CellInside(i, j + 1, |before| + 1, columns);
      ghost var below := Cell(table[..], before, after, i + 1, j);
      ghost var right := Cell(table[..], before, after, i, j + 1);
      StreamStep(before, after, i, j, ops);
      if before[i] == after[j] {
        ops := ops + [Keep];
        i, j := i + 1, j + 1;
      } else if table[(i + 1) * columns + j] >= table[i * columns + (j + 1)] {
        ops := ops + [OnlyBefore];
        i := i + 1;
      } else {
        ops := ops + [OnlyAfter];
        j := j + 1;
      }
    }
    assert before[i..] == [] || after[j..] == [];
    ops := ops + Repeat(OnlyBefore, |before| - i);
    ops := ops + Repeat(OnlyAfter, |after| - j);
  }

  /** What a run contributes, in the terms the counting loop uses. */
  lemma {:induction false} RunAdds(ops: seq<Op>, start: nat, sofar: VersionFacts)
    requires start < |ops| && ops[start] != Keep
    ensures var end := RunEnd(ops, start);
            var before := Count(ops[start..end], OnlyBefore);
            var after := end - start - before;
            var paired := if before < after then before else after;
            && 0 <= paired <= before && paired <= after
            && Plus(sofar, FactsFrom(ops, start)) ==
               Plus(VersionFacts(sofar.added + (after - paired), sofar.changed + paired, sofar.removed + (before - paired)),
                    FactsFrom(ops, end))
  {
    BlockHoldsNoKeep(ops[start..RunEnd(ops, start)]);
    FactsAtRun(ops, start);
    hide Count, RunEnd, FactsFrom;
  }

  lemma {:induction false} FactsAtRun(ops: seq<Op>, start: nat)
    requires start < |ops| && ops[start] != Keep
    ensures FactsFrom(ops, start) == Plus(RunFacts(ops[start..RunEnd(ops, start)]), FactsFrom(ops, RunEnd(ops, start)))
  {
    hide RunFacts, RunEnd;
  }

  /** Pairs removals with insertions inside each contiguous run, never across a kept line. */
  method PairRuns(ops: seq<Op>) returns (facts: VersionFacts)
    ensures facts == Facts(ops)
  {
    var added: nat, changed: nat, removed: nat := 0, 0, 0;
    var at := 0;
    while at < |ops|
      invariant 0 <= at <= |ops|
      invariant Plus(VersionFacts(added, changed, removed), FactsFrom(ops, at)) == FactsFrom(ops, 0)
    {
      if ops[at] == Keep {
        KeepAddsNothing(ops, at);
        at := at + 1;
        continue;
      }
      var start := at;
      at := EndOfRun(ops, start);
      RunAdds(ops, start, VersionFacts(added, changed, removed));
      var block := ops[start..at];
      var onlyBefore := Count(block, OnlyBefore);
      var onlyAfter := |block| - onlyBefore;
      var paired := if onlyBefore < onlyAfter then onlyBefore else onlyAfter;
      changed := changed + paired;
      removed := removed + (onlyBefore - paired);
      added := added + (onlyAfter - paired);
    }
    return VersionFacts(added, changed, removed);
  }

  method EndOfRun(ops: seq<Op>, start: nat) returns (at: nat)
    requires start < |ops| && ops[start] != Keep
    ensures at == RunEnd(ops, start) && start < at
  {
    at := start;
    while at < |ops| && ops[at] != Keep
      invariant start <= at <= |ops|
      invariant RunEnd(ops, start) == RunEnd(ops, at)
    {
      at := at + 1;
    }
  }

  lemma {:induction false} KeepAddsNothing(ops: seq<Op>, at: nat)
    requires at < |ops| && ops[at] == Keep
    ensures FactsFrom(ops, at) == FactsFrom(ops, at + 1)
  {}

  lemma {:induction false} ShorterMiddle<T>(a: seq<T>, head: nat, tail: nat)
    requires head + tail < |a|
    ensures var middle := a[head..|a| - tail];
            && middle[|middle| - 1] == a[|a| - 1 - tail]
            && middle[..|middle| - 1] == a[head..|a| - tail - 1]
  {}

  method TrimHead<T(==)>(a: seq<T>, b: seq<T>) returns (head: nat)
    ensures head == CommonPrefix(a, b)
  {
    head := 0;
    while head < |a| && head < |b| && a[head] == b[head]
      invariant 0 <= head <= |a| && head <= |b|
      invariant head + CommonPrefix(a[head..], b[head..]) == CommonPrefix(a, b)
    {
      assert a[head..][1..] == a[head + 1..] && b[head..][1..] == b[head + 1..];
      head := head + 1;
    }
  }

  /** The agreeing tail of what is left between `head` and the last `tail` lines. */
  function SuffixLeft<T(==)>(a: seq<T>, b: seq<T>, head: nat, tail: nat): nat
    requires head + tail <= |a| && head + tail <= |b|
  {
    CommonSuffix(a[head..|a| - tail], b[head..|b| - tail])
  }

  lemma {:induction false} SuffixStep<T>(a: seq<T>, b: seq<T>, head: nat, tail: nat)
    requires head + tail <= |a| && head + tail <= |b|
    ensures SuffixLeft(a, b, head, tail) ==
            if head + tail < |a| && head + tail < |b| && a[|a| - 1 - tail] == b[|b| - 1 - tail]
            then SuffixLeft(a, b, head, tail + 1) + 1 else 0
  {
    if head + tail < |a| && head + tail < |b| {
      ShorterMiddle(a, head, tail);
      ShorterMiddle(b, head, tail);
    }
  }

  method TrimTail<T(==)>(a: seq<T>, b: seq<T>, head: nat) returns (tail: nat)
    requires head <= |a| && head <= |b|
    ensures tail == CommonSuffix(a[head..], b[head..])
  {
    assert a[head..|a|] == a[head..] && b[head..|b|] == b[head..];
    assert SuffixLeft(a, b, head, 0) == CommonSuffix(a[head..], b[head..]);
    hide SuffixLeft, CommonSuffix;
    tail := 0;
    while tail < |a| - head && tail < |b| - head && a[|a| - 1 - tail] == b[|b| - 1 - tail]
      invariant 0 <= tail <= |a| - head && tail <= |b| - head
      invariant tail + SuffixLeft(a, b, head, tail) == SuffixLeft(a, b, head, 0)
    {
      SuffixStep(a, b, head, tail);
      tail := tail + 1;
    }
    SuffixStep(a, b, head, tail);
  }

  /** Trim, fill, walk, pair. Answers nothing exactly when the trimmed table would pass the cap; the
      overflow of the cell count is one of those cases. */
  method CompareToAncestor<T(==)>(ancestor: seq<T>, current: seq<T>) returns (facts: Option<VersionFacts>)
    ensures facts == Compared(ancestor, current)
  {
    hide CommonPrefix, CommonSuffix, Stream, Facts, Filled;
    var head := TrimHead(ancestor, current);
    var tail := TrimTail(ancestor, current, head);
    var before, after := ancestor[head..|ancestor| - tail], current[head..|current| - tail];

    var cells := (|before| + 1) * (|after| + 1);
    if cells > USIZE_MAX {
      return None;
    }
    if cells > MAX_DIFF_CELLS {
      return None;
    }
    var table := FillTable(before, after);
    var ops := WalkTable(table, before, after);
    var counted := PairRuns(ops);
    return Some(counted);
  }
}
