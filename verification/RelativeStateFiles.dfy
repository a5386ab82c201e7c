/** How far the two rules of src/config.rs about indexes and lockfiles can be trusted when a path is
    relative: that two state files are one, and that a state file lies in another pair's folder. Both
    compare keys without knowing the daemon's working directory. */
module RelativeStateFiles {
  import opened Basics
  import opened Paths
  import opened RelativeRoots
  import PairRoots

  /** "One file" is said wherever it is true, and nowhere else. */
  ghost predicate SameRightEverywhere(p: Path, q: Path) {
    forall from: Location :: IsLocation(from) ==> (LocalKey(p) == LocalKey(q) <==> Resolve(from, p) == Resolve(from, q))
  }

  predicate InsideFrom(from: Location, root: Path, file: Path) { Resolve(from, root) <= Resolve(from, file) }

  /** "Inside that folder" is said wherever it is true, and nowhere else. */
  ghost predicate InsideRightEverywhere(root: Path, file: Path) {
    forall from: Location :: IsLocation(from) ==> (LocalKey(root) <= LocalKey(file) <==> InsideFrom(from, root, file))
  }

  /** `far` is at most `n` names and then `near`. */
  predicate EndsWithin(far: seq<string>, near: seq<string>, n: nat) {
    |near| <= |far| <= |near| + n && far[|far| - |near|..] == near
  }

  /** The condition for "one file", read off the normal forms. Different paths are told apart unless the
      working directory can supply the names by which one is longer than the other: any number of them in
      front of a relative path compared with an absolute one, and between two relative paths as many as
      the one climbs farther. */
  predicate SameTrustworthy(a: Path, b: Path) {
    a == b || match (IsAbsolute(a), IsAbsolute(b))
              case (true, true) => true
              case (true, false) => !EndsWithin(Names(a), Names(b), |Names(a)|)
              case (false, true) => !EndsWithin(Names(b), Names(a), |Names(b)|)
              case (false, false) =>
                Climbs(a) == Climbs(b)
                || (if Climbs(a) < Climbs(b) then !EndsWithin(Names(b), Names(a), Climbs(b) - Climbs(a))
                    else !EndsWithin(Names(a), Names(b), Climbs(a) - Climbs(b)))
  }

  /** Behind some of its first `n` names, `names` goes on with `root`. */
  predicate HoldsWithin(names: seq<string>, root: seq<string>, n: nat) {
    exists j :: 0 <= j <= n && j <= |names| && root <= names[j..]
  }

  /** Behind some of its first `n` names, `root` is a front of `names`. */
  predicate LeadsWithin(root: seq<string>, names: seq<string>, n: nat) {
    exists j :: 0 <= j <= n && j <= |root| && root[j..] <= names
  }

  /** The condition for "inside that folder". An absolute folder never tells about a relative file. */
  predicate InsideTrustworthy(root: Path, file: Path) {
    match (IsAbsolute(root), IsAbsolute(file))
    case (true, true) => true
    case (true, false) => false
    case (false, true) => !HoldsWithin(Names(file), Names(root), |Names(file)|)
    case (false, false) =>
      if Climbs(root) == Climbs(file) then root == [] ==> file == []
      else if Climbs(root) < Climbs(file) then !HoldsWithin(Names(file), Names(root), Climbs(file) - Climbs(root))
      else !LeadsWithin(Names(root), Names(file), Climbs(root) - Climbs(file))
  }

  // ----- where a working directory can put two paths

  /** From anywhere, the path that climbs less is behind at most as many names of the working directory as
      the other climbs farther. */
  lemma {:induction false} PlacesShareAStem(near: Path, far: Path, from: Location) returns (stem: Location, between: Location)
    requires IsNormalForm(near) && IsNormalForm(far) && !IsAbsolute(near) && !IsAbsolute(far) && Climbs(near) < Climbs(far)
    ensures |between| <= Climbs(far) - Climbs(near)
    ensures Resolve(from, near) == stem + (between + Names(near)) && Resolve(from, far) == stem + Names(far)
  {
    hide Resolve, Names, Climbs, Up, IsNormalForm;
    Reaches(near, from);
    Reaches(far, from);
    stem := Up(from, Climbs(far));
    between := LessClimbed(from, Climbs(near), Climbs(far));
    assert stem + between + Names(near) == stem + (between + Names(near));
  }

  /** And those names can be any. */
  lemma {:induction false} AnyNamesBetween(near: Path, far: Path, between: Location) returns (from: Location)
    requires IsNormalForm(near) && IsNormalForm(far) && !IsAbsolute(near) && !IsAbsolute(far) && Climbs(near) < Climbs(far)
    requires IsLocation(between) && |between| <= Climbs(far) - Climbs(near)
    ensures IsLocation(from) && Resolve(from, near) == between + Names(near) && Resolve(from, far) == Names(far)
  {
    from := between + Padding(Climbs(near));
    Reaches(near, from);
    Reaches(far, from);
    assert Up(from, Climbs(near)) == between && Up(from, Climbs(far)) == [];
    hide Up, Resolve;
    assert [] + Names(far) == Names(far);
  }

  /** Beside an absolute path, a relative one can be behind any names at all. */
  lemma {:induction false} AnyNamesInFront(path: Path, front: Location) returns (from: Location)
    requires IsNormalForm(path) && !IsAbsolute(path) && IsLocation(front)
    ensures IsLocation(from) && Resolve(from, path) == front + Names(path)
  {
    from := front + Padding(Climbs(path));
    Reaches(path, from);
    assert Up(from, Climbs(path)) == front;
  }

  lemma {:induction false} AbsolutePlace(path: Path, from: Location)
    requires IsNormalForm(path) && IsAbsolute(path)
    ensures Resolve(from, path) == Names(path)
  {
    NormalFormReaches(path, from);
  }

  lemma {:induction false} StemPrefix<T>(stem: seq<T>, a: seq<T>, b: seq<T>)
    ensures stem + a <= stem + b <==> a <= b
    ensures stem + a == stem + b <==> a == b
  {
    assert (stem + a)[|stem|..] == a && (stem + b)[|stem|..] == b;
    if stem + a <= stem + b {
      assert forall k :: 0 <= k < |a| ==> a[k] == (stem + a)[|stem| + k] == (stem + b)[|stem| + k] == b[k];
    }
  }

  lemma {:induction false} BehindFront(front: seq<string>, names: seq<string>)
    ensures EndsWithin(front + names, names, |front|)
  {
    assert (front + names)[|front|..] == names;
  }

  // ----- one file

  ghost predicate NeverSame(p: Path, q: Path) {
    forall from: Location :: IsLocation(from) ==> Resolve(from, p) != Resolve(from, q)
  }

  /** Keys of normal forms are equal only when the forms are. */
  lemma {:induction false} KeysOfNormalForms(a: Path, b: Path)
    requires IsNormalForm(a) && IsNormalForm(b)
    ensures LocalKey(a) == LocalKey(b) <==> a == b
    ensures LocalKey(a) <= LocalKey(b) <==> if a == [] || b == [] then a == b else a <= b
  {
    NormalFormsAreFixed(a);
    NormalFormsAreFixed(b);
    hide Normalize;
    assert a != [] ==> a[0] != CurDir;
    assert b != [] ==> b[0] != CurDir;
  }

  lemma {:induction false} SameBehind(near: Path, far: Path)
    requires IsNormalForm(near) && IsNormalForm(far) && !IsAbsolute(near) && !IsAbsolute(far) && Climbs(near) < Climbs(far)
    requires IsLocation(Names(far))
    ensures NeverSame(near, far) <==> !EndsWithin(Names(far), Names(near), Climbs(far) - Climbs(near))
  {
    var (a, b) := (Names(near), Names(far));
    hide Resolve, Names, Climbs, IsNormalForm;
    if EndsWithin(b, a, Climbs(far) - Climbs(near)) {
      var between := b[..|b| - |a|];
      var from := AnyNamesBetween(near, far, between);
      assert between + a == b;
    } else {
      forall from: Location ensures Resolve(from, near) != Resolve(from, far) {
        var stem, between := PlacesShareAStem(near, far, from);
        StemPrefix(stem, between + a, b);
        BehindFront(between, a);
      }
    }
  }

  lemma {:induction false} SameAsAbsolute(a: Path, b: Path)
    requires IsNormalForm(a) && IsNormalForm(b) && IsAbsolute(a) && !IsAbsolute(b) && IsLocation(Names(a))
    ensures NeverSame(a, b) <==> !EndsWithin(Names(a), Names(b), |Names(a)|)
  {
    var (x, y) := (Names(a), Names(b));
    if EndsWithin(x, y, |x|) {
      var front := x[..|x| - |y|];
      var from := AnyNamesInFront(b, front);
      AbsolutePlace(a, from);
      assert front + y == x;
    } else {
      forall from: Location ensures Resolve(from, a) != Resolve(from, b) {
        AbsolutePlace(a, from);
        Reaches(b, from);
        var front := Up(from, Climbs(b));
        BehindFront(front, y);
      }
    }
  }

  lemma {:induction false} SameAtEqualHeight(a: Path, b: Path)
    requires IsNormalForm(a) && IsNormalForm(b) && a != b && IsAbsolute(a) == IsAbsolute(b)
    requires IsAbsolute(a) || Climbs(a) == Climbs(b)
    ensures NeverSame(a, b)
  {
    forall from: Location ensures Resolve(from, a) != Resolve(from, b) {
      if IsAbsolute(a) {
        AbsolutePlace(a, from);
        AbsolutePlace(b, from);
        PairRoots.AbsolutePrefix(a, b);
      } else {
        Reaches(a, from);
        Reaches(b, from);
        StemPrefix(Up(from, Climbs(a)), Names(a), Names(b));
        if Names(a) == Names(b) { NormalFormsAgree(a, b); }
      }
    }
  }

  lemma {:induction false} SameJudged(a: Path, b: Path)
    requires IsNormalForm(a) && IsNormalForm(b) && IsLocation(Names(a)) && IsLocation(Names(b))
    ensures SameRightEverywhere(a, b) <==> SameTrustworthy(a, b)
  {
    hide IsNormalForm, SameTrustworthy, LocalKey, Resolve, IsLocation, Names;
    KeysOfNormalForms(a, b);
    if a == b {
      EqualIsTrusted(a);
    } else {
      DifferentJudged(a, b);
    }
  }

  lemma {:induction false} EqualIsTrusted(a: Path)
    ensures SameTrustworthy(a, a)
  {}

  lemma {:induction false} NeverSameBothWays(a: Path, b: Path)
    ensures NeverSame(a, b) <==> NeverSame(b, a)
  {}

  lemma {:induction false} DifferentJudged(a: Path, b: Path)
    requires IsNormalForm(a) && IsNormalForm(b) && a != b && IsLocation(Names(a)) && IsLocation(Names(b))
    ensures NeverSame(a, b) <==> SameTrustworthy(a, b)
  {
    hide IsNormalForm, EndsWithin, Names, Climbs, NeverSame, IsLocation, IsAbsolute;
    NeverSameBothWays(a, b);
    if IsAbsolute(a) && !IsAbsolute(b) {
      SameAsAbsolute(a, b);
    } else if IsAbsolute(b) && !IsAbsolute(a) {
      SameAsAbsolute(b, a);
    } else if IsAbsolute(a) || Climbs(a) == Climbs(b) {
      SameAtEqualHeight(a, b);
    } else if Climbs(a) < Climbs(b) {
      SameBehind(a, b);
    } else {
      SameBehind(b, a);
    }
  }

  // ----- inside a folder

  ghost predicate NeverInside(root: Path, file: Path) {
    forall from: Location :: IsLocation(from) ==> !InsideFrom(from, root, file)
  }

  lemma {:induction false} InsideAbsolute(root: Path, file: Path)
    requires IsNormalForm(root) && IsNormalForm(file) && !IsAbsolute(root) && IsAbsolute(file) && IsLocation(Names(file))
    ensures NeverInside(root, file) <==> !HoldsWithin(Names(file), Names(root), |Names(file)|)
  {
    var (r, a) := (Names(root), Names(file));
    if HoldsWithin(a, r, |a|) {
      var j :| 0 <= j <= |a| && r <= a[j..];
      var from := AnyNamesInFront(root, a[..j]);
      AbsolutePlace(file, from);
      StemPrefix(a[..j], r, a[j..]);
      assert a == a[..j] + a[j..] && InsideFrom(from, root, file);
    } else {
      forall from: Location ensures !InsideFrom(from, root, file) {
        AbsolutePlace(file, from);
        Reaches(root, from);
        var front := Up(from, Climbs(root));
        if front + r <= a { FrontTaken(front, r, a); }
      }
    }
  }

  lemma {:induction false} FrontTaken<T>(front: seq<T>, a: seq<T>, b: seq<T>)
    requires front + a <= b
    ensures |front| <= |b| && front == b[..|front|] && a <= b[|front|..]
  {
    assert forall k :: 0 <= k < |front| ==> front[k] == (front + a)[k];
    assert forall k :: 0 <= k < |a| ==> a[k] == (front + a)[|front| + k];
  }

  /** A folder that climbs less than the file. */
  lemma {:induction false} InsideNearer(root: Path, file: Path)
    requires IsNormalForm(root) && IsNormalForm(file) && !IsAbsolute(root) && !IsAbsolute(file) && Climbs(root) < Climbs(file)
    requires IsLocation(Names(file))
    ensures NeverInside(root, file) <==> !HoldsWithin(Names(file), Names(root), Climbs(file) - Climbs(root))
  {
    var (r, a, n) := (Names(root), Names(file), Climbs(file) - Climbs(root));
    hide Resolve, Names, Climbs, IsNormalForm;
    if HoldsWithin(a, r, n) {
      var j :| 0 <= j <= n && j <= |a| && r <= a[j..];
      var from := AnyNamesBetween(root, file, a[..j]);
      StemPrefix(a[..j], r, a[j..]);
      assert a == a[..j] + a[j..] && InsideFrom(from, root, file);
    } else {
      forall from: Location ensures !InsideFrom(from, root, file) {
        var stem, between := PlacesShareAStem(root, file, from);
        StemPrefix(stem, between + r, a);
        if between + r <= a { FrontTaken(between, r, a); }
      }
    }
  }

  /** A folder that climbs farther than the file. */
  lemma {:induction false} InsideFarther(root: Path, file: Path)
    requires IsNormalForm(root) && IsNormalForm(file) && !IsAbsolute(root) && !IsAbsolute(file) && Climbs(file) < Climbs(root)
    requires IsLocation(Names(root))
    ensures NeverInside(root, file) <==> !LeadsWithin(Names(root), Names(file), Climbs(root) - Climbs(file))
  {
    var (r, a, n) := (Names(root), Names(file), Climbs(root) - Climbs(file));
    hide Resolve, Names, Climbs, IsNormalForm;
    if LeadsWithin(r, a, n) {
      var j :| 0 <= j <= n && j <= |r| && r[j..] <= a;
      var from := AnyNamesBetween(file, root, r[..j]);
      StemPrefix(r[..j], r[j..], a);
      assert r == r[..j] + r[j..] && InsideFrom(from, root, file);
    } else {
      forall from: Location ensures !InsideFrom(from, root, file) {
        var stem, between := PlacesShareAStem(file, root, from);
        StemPrefix(stem, r, between + a);
        if r <= between + a { FrontGiven(between, a, r); }
      }
    }
  }

  lemma {:induction false} FrontGiven<T>(front: seq<T>, a: seq<T>, b: seq<T>)
    requires b <= front + a
    ensures |front| <= |b| ==> b[|front|..] <= a
    ensures |b| <= |front| ==> b[|b|..] <= a
  {
    assert forall k :: |front| <= k < |b| ==> b[k] == (front + a)[k] == a[k - |front|];
  }

  /** A folder that only climbs, and less than the file: true from the root, false from somewhere deep
      under a name the file does not mention. */
  lemma {:induction false} OnlyClimbingFolder(root: Path, file: Path)
    requires IsNormalForm(root) && IsNormalForm(file) && !IsAbsolute(root) && !IsAbsolute(file) && Climbs(root) < Climbs(file)
    requires Names(root) == []
    ensures !InsideRightEverywhere(root, file)
  {
    hide Resolve, Names, Climbs, IsNormalForm, LocalKey, Up, IsName;
    NothingAboveTheRoot(Climbs(root));
    Reaches(root, []);
    Reaches(file, []);
    assert IsLocation([]) && InsideFrom([], root, file);
    var from := DeepUnderANewName(Climbs(root), Climbs(file), Names(file));
    Reaches(root, from);
    Reaches(file, from);
    assert Up(from, Climbs(root)) + [] == Up(from, Climbs(root));
    assert IsLocation(from) && !InsideFrom(from, root, file);
  }

  lemma {:induction false} NothingAboveTheRoot(climbs: nat)
    ensures Up([], climbs) == []
  {}

  lemma {:induction false} DeepUnderANewName(low: nat, high: nat, names: seq<string>) returns (from: Location)
    requires low < high
    ensures IsLocation(from) && !(Up(from, low) <= Up(from, high) + names)
  {
    hide IsName, Longest;
    var novel := Novel(names);
    from := seq(high + 1, _ => novel);
    assert Up(from, low)[1] == novel;
    assert names != [] ==> (Up(from, high) + names)[1] == names[0];
  }

  lemma {:induction false} AbsoluteFolder(root: Path, file: Path)
    requires IsNormalForm(root) && IsNormalForm(file) && IsAbsolute(root) && !IsAbsolute(file) && IsLocation(Names(root))
    ensures !InsideRightEverywhere(root, file)
  {
    KeysOfNormalForms(root, file);
    var from := AnyNamesInFront(file, Names(root));
    AbsolutePlace(root, from);
    assert InsideFrom(from, root, file);
  }

  lemma {:induction false} InsideAtEqualHeight(root: Path, file: Path)
    requires IsNormalForm(root) && IsNormalForm(file) && !IsAbsolute(root) && !IsAbsolute(file) && Climbs(root) == Climbs(file)
    ensures InsideRightEverywhere(root, file) <==> (root == [] ==> file == [])
  {
    KeysOfNormalForms(root, file);
    PrefixOfRelative(root, file);
    EmptyOrNot(root);
    EmptyOrNot(file);
    forall from: Location ensures InsideFrom(from, root, file) <==> Names(root) <= Names(file) {
      Reaches(root, from);
      Reaches(file, from);
      StemPrefix(Up(from, Climbs(root)), Names(root), Names(file));
    }
    hide IsNormalForm, Resolve, Climbs, Names, LocalKey, InsideFrom;
    assert IsLocation([]);
    assert InsideFrom([], root, file) <==> Names(root) <= Names(file);
  }

  lemma {:induction false} InsideJudgedApart(root: Path, file: Path)
    requires IsNormalForm(root) && IsNormalForm(file) && !IsAbsolute(root) && !IsAbsolute(file) && Climbs(root) != Climbs(file)
    requires IsLocation(Names(root)) && IsLocation(Names(file))
    ensures InsideRightEverywhere(root, file) <==> InsideTrustworthy(root, file)
  {
    hide IsNormalForm, LeadsWithin, LocalKey, InsideFrom, IsLocation, Names, Climbs, Resolve;
    KeysOfNormalForms(root, file);
    PrefixOfRelative(root, file);
    if Climbs(root) > Climbs(file) {
      InsideFarther(root, file);
    } else if Names(root) == [] {
      OnlyClimbingFolder(root, file);
      assert Names(root) <= Names(file)[0..];
    } else {
      InsideNearer(root, file);
    }
  }

  lemma {:induction false} InsideJudged(root: Path, file: Path)
    requires IsNormalForm(root) && IsNormalForm(file) && IsLocation(Names(root)) && IsLocation(Names(file))
    ensures InsideRightEverywhere(root, file) <==> InsideTrustworthy(root, file)
  {
    hide InsideRightEverywhere, HoldsWithin, LeadsWithin, IsLocation;
    if IsAbsolute(root) && IsAbsolute(file) {
      AbsoluteInside(root, file);
    } else if IsAbsolute(root) {
      AbsoluteFolder(root, file);
    } else if IsAbsolute(file) {
      AbsoluteFile(root, file);
    } else if Climbs(root) == Climbs(file) {
      InsideAtEqualHeight(root, file);
    } else {
      InsideJudgedApart(root, file);
    }
  }

  lemma {:induction false} AbsoluteInside(root: Path, file: Path)
    requires IsAbsolute(root) && IsAbsolute(file)
    ensures InsideRightEverywhere(root, file)
  {
    forall from: Location ensures LocalKey(root) <= LocalKey(file) <==> InsideFrom(from, root, file) {
      PairRoots.AbsoluteKeysTellPlaces(root, file, from);
    }
  }

  lemma {:induction false} AbsoluteFile(root: Path, file: Path)
    requires IsNormalForm(root) && IsNormalForm(file) && !IsAbsolute(root) && IsAbsolute(file) && IsLocation(Names(file))
    ensures InsideRightEverywhere(root, file) <==> !HoldsWithin(Names(file), Names(root), |Names(file)|)
  {
    KeysOfNormalForms(root, file);
    InsideAbsolute(root, file);
    hide IsNormalForm, HoldsWithin, LocalKey, InsideFrom;
  }

  // ----- any two paths, and the rules themselves

  lemma {:induction false} NormalFormStandsIn(path: Path)
    requires IsLocation(Names(path))
    ensures IsNormalForm(Normalize(path)) && IsLocation(Names(Normalize(path)))
    ensures LocalKey(Normalize(path)) == LocalKey(path)
    ensures forall from :: Resolve(from, Normalize(path)) == Resolve(from, path)
  {
    NormalNames([], path);
    NormalFormsAreFixed(Normalize(path));
    forall from ensures Resolve(from, Normalize(path)) == Resolve(from, path) { NormalizeKeepsThePlace(path, from); }
  }

  /** The verdict "one file" is right from every working directory exactly when the normal forms allow it. */
  lemma {:induction false} SameFileRightExactlyWhenTrustworthy(p: Path, q: Path)
    requires IsLocation(Names(p)) && IsLocation(Names(q))
    ensures SameRightEverywhere(p, q) <==> SameTrustworthy(Normalize(p), Normalize(q))
  {
    NormalFormStandsIn(p);
    NormalFormStandsIn(q);
    hide LocalKey, Resolve, Normalize, IsNormalForm, Names, SameTrustworthy;
    SameJudged(Normalize(p), Normalize(q));
    assert SameRightEverywhere(p, q) <==> SameRightEverywhere(Normalize(p), Normalize(q));
  }

  /** And so is the verdict "inside that folder". */
  lemma {:induction false} FileInsideRightExactlyWhenTrustworthy(root: Path, file: Path)
    requires IsLocation(Names(root)) && IsLocation(Names(file))
    ensures InsideRightEverywhere(root, file) <==> InsideTrustworthy(Normalize(root), Normalize(file))
  {
    NormalFormStandsIn(root);
    NormalFormStandsIn(file);
    hide LocalKey, Resolve, Normalize, IsNormalForm, Names, InsideTrustworthy;
    InsideJudged(Normalize(root), Normalize(file));
    forall from: Location ensures InsideFrom(from, root, file) <==> InsideFrom(from, Normalize(root), Normalize(file)) {}
    assert InsideRightEverywhere(root, file) <==> InsideRightEverywhere(Normalize(root), Normalize(file));
  }

  /** The rules as the config reader asks them, of files and folders where the daemon would open them. */
  lemma {:induction false} StateRulesRightExactlyWhenTrustworthy(home: Option<Path>, p: PairRoots.Pair, f: PairRoots.StateFile,
                                                                 q: PairRoots.Pair, g: PairRoots.StateFile)
    requires var (mine, other) := (PairRoots.OpenedState(home, p, f), PairRoots.OpenedState(home, q, g));
             && mine.Some? && other.Some? && q.localRoot.Some?
             && IsLocation(Names(mine.value)) && IsLocation(Names(other.value))
             && IsLocation(Names(PairRoots.ExpandTilde(home, q.localRoot.value)))
    ensures var (mine, other) := (PairRoots.OpenedState(home, p, f).value, PairRoots.OpenedState(home, q, g).value);
            var root := PairRoots.ExpandTilde(home, q.localRoot.value);
            && ((forall from: Location :: IsLocation(from) ==>
                   (PairRoots.SameFile(home, p, f, q, g)
                    <==> PairRoots.StateAt(home, p, f, from) == PairRoots.StateAt(home, q, g, from)))
                <==> SameTrustworthy(Normalize(mine), Normalize(other)))
            && ((forall from: Location :: IsLocation(from) ==>
                   (PairRoots.FileInside(home, p, f, q)
                    <==> PairRoots.LiesUnder(PairRoots.StateAt(home, p, f, from).value, PairRoots.RootAt(home, q, from).value)))
                <==> InsideTrustworthy(Normalize(root), Normalize(mine)))
  {
    var (mine, other) := (PairRoots.OpenedState(home, p, f).value, PairRoots.OpenedState(home, q, g).value);
    var root := PairRoots.ExpandTilde(home, q.localRoot.value);
    PairRoots.StateKeyIsOfTheOpenedPath(home, p, f);
    PairRoots.StateKeyIsOfTheOpenedPath(home, q, g);
    SameFileRightExactlyWhenTrustworthy(mine, other);
    FileInsideRightExactlyWhenTrustworthy(root, mine);
    forall from: Location
      ensures PairRoots.StateAt(home, p, f, from) == Some(Resolve(from, mine))
              && PairRoots.StateAt(home, q, g, from) == Some(Resolve(from, other))
              && PairRoots.RootAt(home, q, from) == Some(Resolve(from, root))
    {
      PairRoots.StateAtIsOpened(home, p, f, from);
      PairRoots.StateAtIsOpened(home, q, g, from);
    }
    assert PairRoots.RootKey(home, q) == Some(LocalKey(root));
    hide PairRoots.OpenedState, PairRoots.StateKey, PairRoots.StateAt, PairRoots.RootAt, PairRoots.RootKey, PairRoots.ExpandTilde;
    hide Resolve, LocalKey, Normalize, Names, IsLocation, SameTrustworthy, InsideTrustworthy;
    assert PairRoots.SameFile(home, p, f, q, g) <==> LocalKey(mine) == LocalKey(other);
    assert PairRoots.FileInside(home, p, f, q) <==> LocalKey(root) <= LocalKey(mine);
  }
}
