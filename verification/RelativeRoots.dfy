/** How far the lexical overlap rule of src/config.rs can be trusted when a root is relative. The rule
    compares keys without knowing the daemon's working directory; this says for exactly which pairs of
    paths its verdict is right from every working directory, and shows both ways it is wrong. */
module RelativeRoots {
  import opened Basics
  import opened Paths
  import PairRoots

  /** The two places overlap when the daemon starts in `from`. */
  predicate OverlapFrom(from: Location, p: Path, q: Path) { Nested(Resolve(from, p), Resolve(from, q)) }

  predicate Verdict(p: Path, q: Path) { Nested(LocalKey(p), LocalKey(q)) }

  /** The rule's verdict is the truth wherever the daemon is started. */
  ghost predicate RightEverywhere(p: Path, q: Path) {
    forall from: Location :: IsLocation(from) ==> (Verdict(p, q) <==> OverlapFrom(from, p, q))
  }

  /** The condition, read off the normal forms. Two absolute paths are compared exactly; an absolute and a
      relative one never are. Two relative paths are, if they climb equally far and not just one of them is
      the current directory; or if they climb differently far and either both only climb, or the names
      behind the longer climb cannot lead back into the other path. */
  predicate Trustworthy(a: Path, b: Path) {
    if IsAbsolute(a) || IsAbsolute(b) then IsAbsolute(a) && IsAbsolute(b)
    else if Climbs(a) == Climbs(b) then (a == [] <==> b == [])
    else if Climbs(a) < Climbs(b) then NeverMeet(Climbs(a), Names(a), Climbs(b), Names(b))
    else NeverMeet(Climbs(b), Names(b), Climbs(a), Names(a))
  }

  /** For a path climbing `low` steps and one climbing `high` > `low`. */
  predicate NeverMeet(low: nat, near: seq<string>, high: nat, far: seq<string>)
    requires low < high
  {
    if near == [] then low > 0 && far == []
    else far != [] && forall j :: 0 <= j <= high - low && j <= |far| ==> !Nested(far[j..], near)
  }

  // ----- what the rule says of two normal forms

  lemma {:induction false} PrefixOfRelative(a: Path, b: Path)
    requires IsNormalForm(a) && IsNormalForm(b) && !IsAbsolute(a) && !IsAbsolute(b)
    ensures a <= b <==> (Climbs(a) == Climbs(b) && Names(a) <= Names(b)) || (Climbs(a) <= Climbs(b) && Names(a) == [])
    decreases |a|
  {
    if a == [] {
    } else if b == [] {
      EmptyOrNot(a);
    } else {
      TailIsNormalForm(a);
      TailIsNormalForm(b);
      assert a[0] != CurDir && b[0] != CurDir;
      hide IsNormalForm;
      if a[0] == ParentDir && b[0] == ParentDir {
        PrefixTails(a, b);
        PrefixOfRelative(a[1..], b[1..]);
      } else if a[0] != ParentDir && b[0] != ParentDir {
        OnlyNames(a);
        OnlyNames(b);
        hide Names, Climbs;
        PairRoots.NamesPrefix(a, b);
      }
    }
  }

  lemma {:induction false} OnlyNames(a: Path)
    requires a != [] && a[0].Normal? && forall k :: 0 <= k < |a[1..]| ==> a[1..][k].Normal?
    ensures Climbs(a) == 0 && Names(a) != [] && forall k :: 0 <= k < |a| ==> a[k].Normal?
  {
    forall k | 0 < k < |a| ensures a[k].Normal? { assert a[k] == a[1..][k - 1]; }
  }

  lemma {:induction false} PrefixTails<T>(a: seq<T>, b: seq<T>)
    requires a != [] && b != []
    ensures a <= b <==> a[0] == b[0] && a[1..] <= b[1..]
  {
    assert a == [a[0]] + a[1..] && b == [b[0]] + b[1..];
  }

  /** The rule on two relative normal forms. */
  lemma {:induction false} RelativeVerdict(a: Path, b: Path)
    requires IsNormalForm(a) && IsNormalForm(b) && !IsAbsolute(a) && !IsAbsolute(b)
    ensures Verdict(a, b) <==>
            if a == [] || b == [] then a == b
            else (Climbs(a) == Climbs(b) && Nested(Names(a), Names(b)))
                 || (Climbs(a) <= Climbs(b) && Names(a) == []) || (Climbs(b) <= Climbs(a) && Names(b) == [])
  {
    NormalFormsAreFixed(a);
    NormalFormsAreFixed(b);
    PrefixOfRelative(a, b);
    PrefixOfRelative(b, a);
    hide Normalize, Climbs, Names;
    if a == [] || b == [] {
      assert a != [] ==> a[0] != CurDir;
      assert b != [] ==> b[0] != CurDir;
    }
  }

  // ----- where two relative paths lead

  lemma {:induction false} Reaches(a: Path, from: Location)
    requires IsNormalForm(a) && !IsAbsolute(a)
    ensures Resolve(from, a) == Up(from, Climbs(a)) + Names(a)
  {
    NormalFormReaches(a, from);
  }

  /** A shared stem does not matter. */
  lemma {:induction false} SameStem(stem: seq<string>, p: seq<string>, q: seq<string>)
    ensures Nested(stem + p, stem + q) <==> Nested(p, q)
  {
    assert (stem + p)[|stem|..] == p && (stem + q)[|stem|..] == q;
    if Nested(stem + p, stem + q) {
      if stem + p <= stem + q {
        assert forall k :: 0 <= k < |p| ==> p[k] == (stem + p)[|stem| + k] == (stem + q)[|stem| + k] == q[k];
      } else {
        assert forall k :: 0 <= k < |q| ==> q[k] == (stem + q)[|stem| + k] == (stem + p)[|stem| + k] == p[k];
      }
    }
  }

  /** Climbing less leaves what climbing more leaves, and some names of the working directory behind it. */
  lemma {:induction false} LessClimbed(from: Location, low: nat, high: nat) returns (between: seq<string>)
    requires low < high
    ensures Up(from, low) == Up(from, high) + between && |between| <= high - low
    ensures IsLocation(from) ==> IsLocation(between)
  {
    between := Up(from, low)[|Up(from, high)|..];
  }

  /** Two paths that meet behind some names meet behind as many of them as the farther path spells out. */
  lemma {:induction false} MeetingPoint(between: seq<string>, near: seq<string>, far: seq<string>) returns (j: nat)
    requires Nested(between + near, far)
    ensures j <= |between| && j <= |far| && Nested(far[j..], near)
  {
    if |between| <= |far| {
      j := |between|;
      assert forall k :: 0 <= k < j ==> far[k] == (between + near)[k];
      assert far[..j] == between && far == far[..j] + far[j..];
      SameStem(between, near, far[j..]);
    } else {
      j := |far|;
      assert far[j..] == [];
    }
  }

  lemma {:induction false} NeverMeetHolds(from: Location, low: nat, near: seq<string>, high: nat, far: seq<string>)
    requires low < high && near != [] && NeverMeet(low, near, high, far)
    ensures !Nested(Up(from, low) + near, Up(from, high) + far)
  {
    if Nested(Up(from, low) + near, Up(from, high) + far) {
      var between := LessClimbed(from, low, high);
      hide Up;
      assert Up(from, high) + between + near == Up(from, high) + (between + near);
      SameStem(Up(from, high), between + near, far);
      var j := MeetingPoint(between, near, far);
    }
  }

  function Padding(n: nat): (names: seq<string>)
    ensures |names| == n && IsLocation(names)
  {
    assert IsName("x");
    seq(n, _ => "x")
  }

  /** When the condition fails although the nearer path names something, the two meet somewhere. */
  lemma {:induction false} TheyMeet(low: nat, near: seq<string>, high: nat, far: seq<string>) returns (from: Location)
    requires low < high && near != [] && !NeverMeet(low, near, high, far) && IsLocation(far)
    ensures IsLocation(from) && Nested(Up(from, low) + near, Up(from, high) + far)
  {
    hide Up, IsName;
    if far == [] {
      from := [];
      NoMore(low, high);
    } else {
      hide Nested;
      var j :| 0 <= j <= high - low && j <= |far| && Nested(far[j..], near);
      from := far[..j] + Padding(low);
      MeetAt(far[..j], Padding(low), near, high, far[j..]);
      assert far == far[..j] + far[j..];
    }
  }

  lemma {:induction false} NoMore(low: nat, high: nat)
    ensures Up([], low) == Up([], high) == []
  {}

  lemma {:induction false} MeetAt(stem: seq<string>, padding: seq<string>, near: seq<string>, high: nat, rest: seq<string>)
    requires |stem| + |padding| <= high && Nested(rest, near)
    ensures Nested(Up(stem + padding, |padding|) + near, Up(stem + padding, high) + (stem + rest))
  {
    assert Up(stem + padding, |padding|) == stem && Up(stem + padding, high) == [];
    assert [] + (stem + rest) == stem + rest;
    SameStem(stem, near, rest);
  }

  /** Somewhere deep, under a name neither path mentions, climbs of different length lead apart. */
  lemma {:induction false} TheyPart(low: nat, high: nat, far: seq<string>) returns (from: Location)
    requires low < high && far != []
    ensures IsLocation(from) && !Nested(Up(from, low), Up(from, high) + far)
  {
    from := seq(high + 1, _ => Novel(far));
    assert Up(from, low)[1] == Novel(far) && (Up(from, high) + far)[1] == far[0];
  }

  lemma {:induction false} UnequalClimbs(a: Path, b: Path)
    requires IsNormalForm(a) && IsNormalForm(b) && !IsAbsolute(a) && !IsAbsolute(b) && Climbs(a) < Climbs(b)
    requires IsLocation(Names(a)) && IsLocation(Names(b))
    ensures RightEverywhere(a, b) <==> NeverMeet(Climbs(a), Names(a), Climbs(b), Names(b))
  {
    var (low, near, high, far) := (Climbs(a), Names(a), Climbs(b), Names(b));
    RelativeVerdict(a, b);
    EmptyOrNot(a);
    EmptyOrNot(b);
    forall from: Location
      ensures OverlapFrom(from, a, b) <==> Nested(Up(from, low) + near, Up(from, high) + far)
    {
      Reaches(a, from);
      Reaches(b, from);
    }
    assert near == [] ==> (NeverMeet(low, near, high, far) <==> low > 0 && far == []);
    hide IsNormalForm, Resolve, Climbs, Names, Verdict, OverlapFrom, Up, IsLocation, Nested, NeverMeet;
    if near != [] {
      if NeverMeet(low, near, high, far) {
        forall from: Location ensures !OverlapFrom(from, a, b) {
          NeverMeetHolds(from, low, near, high, far);
        }
      } else {
        var from := TheyMeet(low, near, high, far);
        assert OverlapFrom(from, a, b) && !Verdict(a, b);
      }
    } else {
      OnlyClimbing(a, b, low, high, far);
    }
  }

  lemma {:induction false} OnlyClimbing(a: Path, b: Path, low: nat, high: nat, far: seq<string>)
    requires low < high
    requires forall from: Location :: OverlapFrom(from, a, b) <==> Nested(Up(from, low) + [], Up(from, high) + far)
    requires Verdict(a, b) <==> low > 0
    ensures RightEverywhere(a, b) <==> low > 0 && far == []
  {
    hide OverlapFrom, Verdict;
    if low == 0 {
      assert IsLocation([]) && OverlapFrom([], a, b);
    } else if far == [] {
      forall from: Location ensures OverlapFrom(from, a, b) {
        var between := LessClimbed(from, low, high);
      }
    } else {
      var from := TheyPart(low, high, far);
      assert Up(from, low) + [] == Up(from, low);
    }
  }

  lemma {:induction false} EqualClimbs(a: Path, b: Path)
    requires IsNormalForm(a) && IsNormalForm(b) && !IsAbsolute(a) && !IsAbsolute(b) && Climbs(a) == Climbs(b)
    ensures RightEverywhere(a, b) <==> (a == [] <==> b == [])
  {
    RelativeVerdict(a, b);
    EmptyOrNot(a);
    EmptyOrNot(b);
    forall from: Location ensures OverlapFrom(from, a, b) <==> Nested(Names(a), Names(b)) {
      Reaches(a, from);
      Reaches(b, from);
      SameStem(Up(from, Climbs(a)), Names(a), Names(b));
    }
    hide IsNormalForm, Resolve, Climbs, Names, OverlapFrom, Verdict;
    assert IsLocation([]);
    assert OverlapFrom([], a, b) <==> Nested(Names(a), Names(b));
  }

  lemma {:induction false} MixedRoots(a: Path, b: Path)
    requires IsNormalForm(a) && IsNormalForm(b) && IsAbsolute(a) && !IsAbsolute(b) && IsLocation(Names(a))
    ensures !RightEverywhere(a, b) && !RightEverywhere(b, a)
  {
    var from := Names(a) + Padding(Climbs(b));
    NormalFormReaches(a, from);
    NormalFormReaches(b, from);
    assert Up(from, Climbs(b)) == Names(a);
    NormalFormsAreFixed(a);
    NormalFormsAreFixed(b);
    hide Climbs, Names, Normalize;
    assert OverlapFrom(from, a, b) && OverlapFrom(from, b, a);
    assert LocalKey(a)[0] == RootDir && LocalKey(b)[0] != RootDir;
    assert !Verdict(a, b) && !Verdict(b, a);
  }

  lemma {:induction false} AbsoluteRoots(p: Path, q: Path)
    requires IsAbsolute(p) && IsAbsolute(q)
    ensures RightEverywhere(p, q)
  {
    forall from: Location ensures Verdict(p, q) <==> OverlapFrom(from, p, q) {
      PairRoots.AbsoluteKeysTellPlaces(p, q, from);
      PairRoots.AbsoluteKeysTellPlaces(q, p, from);
    }
  }

  lemma {:induction false} Swapped(p: Path, q: Path)
    ensures RightEverywhere(p, q) <==> RightEverywhere(q, p)
  {
    hide Resolve, LocalKey;
    assert Verdict(p, q) <==> Verdict(q, p);
    assert forall from: Location :: OverlapFrom(from, p, q) <==> OverlapFrom(from, q, p);
  }

  lemma {:induction false} NormalFormsJudged(a: Path, b: Path)
    requires IsNormalForm(a) && IsNormalForm(b) && IsLocation(Names(a)) && IsLocation(Names(b))
    ensures RightEverywhere(a, b) <==> Trustworthy(a, b)
  {
    Swapped(a, b);
    if IsAbsolute(a) && IsAbsolute(b) {
      AbsoluteRoots(a, b);
    } else if IsAbsolute(a) {
      MixedRoots(a, b);
    } else if IsAbsolute(b) {
      MixedRoots(b, a);
    } else if Climbs(a) == Climbs(b) {
      EqualClimbs(a, b);
    } else if Climbs(a) < Climbs(b) {
      UnequalClimbs(a, b);
    } else {
      UnequalClimbs(b, a);
    }
  }

  // ----- any two paths

  lemma {:induction false} NormalNames(addressed: seq<Component>, rest: seq<Component>)
    requires IsLocation(Names(addressed)) && IsLocation(Names(rest))
    ensures IsLocation(Names(NormalizeOnto(addressed, rest)))
    decreases |rest|
  {
    if rest != [] {
      var pushed := Push(addressed, rest[0]);
      assert rest == [rest[0]] + rest[1..];
      NamesConcat([rest[0]], rest[1..]);
      NamesConcat(addressed, [rest[0]]);
      if addressed != [] {
        var front := addressed[..|addressed| - 1];
        assert addressed == front + [addressed[|addressed| - 1]];
        NamesConcat(front, [addressed[|addressed| - 1]]);
      }
      NormalNames(pushed, rest[1..]);
    }
  }

  lemma {:induction false} NamesConcat(p: seq<Component>, q: seq<Component>)
    ensures Names(p + q) == Names(p) + Names(q)
    ensures IsLocation(Names(p + q)) <==> IsLocation(Names(p)) && IsLocation(Names(q))
  {
    if p == [] {
      assert p + q == q;
    } else {
      assert (p + q)[1..] == p[1..] + q;
      NamesConcat(p[1..], q);
    }
    hide Names, IsName;
    LocationConcat(Names(p), Names(q));
  }

  lemma {:induction false} LocationConcat(a: Location, b: Location)
    ensures IsLocation(a + b) <==> IsLocation(a) && IsLocation(b)
  {
    hide IsName;
    assert forall k :: 0 <= k < |a| ==> (a + b)[k] == a[k];
    assert forall k :: 0 <= k < |b| ==> (a + b)[|a| + k] == b[k];
  }

  /** The lexical verdict on two roots is right from every working directory exactly when their normal
      forms are trustworthy; in particular always when both are absolute. */
  lemma {:induction false} VerdictRightExactlyWhenTrustworthy(p: Path, q: Path)
    requires IsLocation(Names(p)) && IsLocation(Names(q))
    ensures RightEverywhere(p, q) <==> Trustworthy(Normalize(p), Normalize(q))
  {
    var (a, b) := (Normalize(p), Normalize(q));
    NormalNames([], p);
    NormalNames([], q);
    NormalFormsAreFixed(a);
    NormalFormsAreFixed(b);
    forall from: Location ensures OverlapFrom(from, p, q) <==> OverlapFrom(from, a, b) {
      NormalizeKeepsThePlace(p, from);
      NormalizeKeepsThePlace(q, from);
    }
    assert Verdict(p, q) <==> Verdict(a, b);
    NormalFormsJudged(a, b);
  }

  /** Wrong one way: `.` and `a` are accepted, although `a` is inside `.` wherever the daemon starts. */
  lemma {:induction false} AcceptedAlthoughInside(from: Location)
    ensures !Verdict([CurDir], [Normal("a")]) && OverlapFrom(from, [CurDir], [Normal("a")])
  {
    var (here, below) := ([CurDir], [Normal("a")]);
    HereNormalizes();
    NormalFormsAreFixed(below);
    ResolveOne(from, here[0]);
    ResolveOne(from, below[0]);
    hide Normalize, Resolve, IsNormalForm;
    assert here[0] != below[0];
  }

  lemma {:induction false} HereNormalizes()
    ensures Normalize([CurDir]) == []
  {
    assert NormalizeOnto(Push([], CurDir), [CurDir][1..]) == [];
  }

  /** Wrong the other way: `..` and `../../x` are refused, although from /g/p/c they are /g/p and /g/x. */
  lemma {:induction false} RefusedAlthoughApart()
    ensures Verdict([ParentDir], [ParentDir, ParentDir, Normal("x")])
    ensures !OverlapFrom(["g", "p", "c"], [ParentDir], [ParentDir, ParentDir, Normal("x")])
  {
    var (up, aside) := ([ParentDir], [ParentDir, ParentDir, Normal("x")]);
    NormalFormsAreFixed(up);
    NormalFormsAreFixed(aside);
    assert up <= aside;
    hide Normalize;
    UpAndAside();
    assert "p"[0] != "x"[0] && ["g", "p"][1] == "p" && ["g", "x"][1] == "x";
  }

  lemma {:induction false} UpAndAside()
    ensures Resolve(["g", "p", "c"], [ParentDir]) == ["g", "p"]
    ensures Resolve(["g", "p", "c"], [ParentDir, ParentDir, Normal("x")]) == ["g", "x"]
  {
    var (from, up, aside) := (["g", "p", "c"], [ParentDir], [ParentDir, ParentDir, Normal("x")]);
    ResolveOne(from, ParentDir);
    ResolveOne(["g", "p"], ParentDir);
    ResolveOne(["g"], Normal("x"));
    assert aside == up + (up + [Normal("x")]);
    ResolveConcat(from, up, up + [Normal("x")]);
    ResolveConcat(["g", "p"], up, [Normal("x")]);
  }
}
