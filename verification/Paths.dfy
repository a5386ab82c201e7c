/** src/lib.rs: paths as their components, what a path addresses in a tree without symlinks, and the
    lexical normal form. A platform prefix does not exist on Unix and has no component here. */
module Paths {
  import opened Basics

  predicate IsName(n: string) { n != "" && n != "." && n != ".." && '/' !in n }

  datatype Component = RootDir | CurDir | ParentDir | Normal(name: string)

  /** What a path's component walk can yield: a root only in front, and `.` only as a relative path's
      first component (an interior or trailing one is dropped by the walk). */
  predicate WellFormed(path: seq<Component>) {
    forall k :: 0 < k < |path| ==> path[k] != RootDir && path[k] != CurDir
  }

  type Path = p: seq<Component> | WellFormed(p) witness []

  predicate IsAbsolute(path: Path) { path != [] && path[0] == RootDir }

  /** Joining: an absolute path replaces the base, and a leading `.` is no longer leading. */
  function Join(base: Path, path: Path): Path {
    if IsAbsolute(path) || base == [] then path
    else if path != [] && path[0] == CurDir then base + path[1..]
    else base + path
  }

  // ----- what a path addresses

  /** Names from the root down. */
  type Location = seq<string>

  /** Pathname resolution without symlinks, section 4.13 of the POSIX.1-2017 Base Definitions: the
      parent of the root is the root. */
  function Resolve(from: Location, path: seq<Component>): Location
    decreases |path|
  {
    if path == [] then from else Resolve(Enter(from, path[0]), path[1..])
  }

  function Enter(at: Location, c: Component): Location {
    match c
    case RootDir => []
    case CurDir => at
    case ParentDir => if at == [] then [] else at[..|at| - 1]
    case Normal(name) => at + [name]
  }

  predicate IsLocation(at: Location) { forall k :: 0 <= k < |at| ==> IsName(at[k]) }

  /** Two paths reach the same place from every working directory. */
  ghost predicate SamePlace(p: Path, q: Path) {
    forall from: Location :: IsLocation(from) ==> Resolve(from, p) == Resolve(from, q)
  }

  // ----- the normal form

  /** What one component does to the stack of components addressed so far. */
  function Push(addressed: seq<Component>, c: Component): seq<Component> {
    match c
    case CurDir => addressed
    case ParentDir =>
      if addressed != [] && addressed[|addressed| - 1].Normal? then addressed[..|addressed| - 1]
      else if addressed != [] && addressed[|addressed| - 1] == RootDir then addressed
      else addressed + [c]
    case _ => addressed + [c]
  }

  function NormalizeOnto(addressed: seq<Component>, rest: seq<Component>): seq<Component>
    decreases |rest|
  {
    if rest == [] then addressed else NormalizeOnto(Push(addressed, rest[0]), rest[1..])
  }

  function Normalize(path: Path): (normal: Path)
    ensures IsNormalForm(normal)
  {
    OntoIsNormalForm([], path);
    NormalizeOnto([], path)
  }

  method LexicallyNormalized(path: Path) returns (normal: Path)
    ensures normal == Normalize(path)
  {
    var addressed: seq<Component> := [];
    for i := 0 to |path|
      invariant NormalizeOnto(addressed, path[i..]) == NormalizeOnto([], path)
    {
      assert path[i..][1..] == path[i + 1..];
      match path[i] {
        case CurDir =>
        case ParentDir =>
          if addressed != [] && addressed[|addressed| - 1].Normal? {
            addressed := addressed[..|addressed| - 1];
          } else if addressed == [] || addressed[|addressed| - 1] != RootDir {
            addressed := addressed + [path[i]];
          }
        case other =>
          addressed := addressed + [path[i]];
      }
    }
    OntoIsNormalForm([], path);
    return addressed;
  }

  /** No `.`, a root only in front, and a `..` only behind other `..`. */
  predicate IsNormalForm(path: seq<Component>) {
    && (forall k :: 0 <= k < |path| ==> path[k] != CurDir)
    && (forall k :: 0 < k < |path| ==> path[k] != RootDir)
    && (forall j, k :: 0 <= j < k < |path| && path[k] == ParentDir ==> path[j] == ParentDir)
  }

  lemma {:induction false} PushKeepsNormalForm(addressed: seq<Component>, c: Component)
    requires IsNormalForm(addressed) && (addressed == [] || c != RootDir)
    ensures IsNormalForm(Push(addressed, c))
  {}

  lemma {:induction false} OntoIsNormalForm(addressed: seq<Component>, rest: seq<Component>)
    requires IsNormalForm(addressed) && WellFormed(rest)
    requires addressed == [] || rest == [] || rest[0] != RootDir
    ensures IsNormalForm(NormalizeOnto(addressed, rest))
    decreases |rest|
  {
    if rest != [] {
      PushKeepsNormalForm(addressed, rest[0]);
      hide IsNormalForm, Push;
      OntoIsNormalForm(Push(addressed, rest[0]), rest[1..]);
    }
  }

  lemma {:induction false} ResolveConcat(from: Location, p: seq<Component>, q: seq<Component>)
    ensures Resolve(from, p + q) == Resolve(Resolve(from, p), q)
    decreases |p|
  {
    if p == [] {
      assert p + q == q;
    } else {
      assert (p + q)[1..] == p[1..] + q;
      ResolveConcat(Enter(from, p[0]), p[1..], q);
    }
  }

  lemma {:induction false} ResolveOne(from: Location, c: Component)
    ensures Resolve(from, [c]) == Enter(from, c)
  {
    assert Resolve(Enter(from, c), [c][1..]) == Enter(from, c);
  }

  lemma {:induction false} PushKeepsThePlace(from: Location, addressed: seq<Component>, c: Component)
    requires IsNormalForm(addressed) && (addressed == [] || c != RootDir)
    ensures Resolve(from, Push(addressed, c)) == Enter(Resolve(from, addressed), c)
  {
    ResolveConcat(from, addressed, [c]);
    ResolveOne(Resolve(from, addressed), c);
    if c == ParentDir && addressed != [] {
      var (front, last) := (addressed[..|addressed| - 1], addressed[|addressed| - 1]);
      assert addressed == front + [last];
      ResolveConcat(from, front, [last]);
      ResolveOne(Resolve(from, front), last);
    }
  }

  lemma {:induction false} OntoKeepsThePlace(from: Location, addressed: seq<Component>, rest: seq<Component>)
    requires IsNormalForm(addressed) && WellFormed(rest)
    requires addressed == [] || rest == [] || rest[0] != RootDir
    ensures Resolve(from, NormalizeOnto(addressed, rest)) == Resolve(Resolve(from, addressed), rest)
    decreases |rest|
  {
    if rest != [] {
      PushKeepsNormalForm(addressed, rest[0]);
      PushKeepsThePlace(from, addressed, rest[0]);
      hide IsNormalForm, Push, Enter;
      OntoKeepsThePlace(from, Push(addressed, rest[0]), rest[1..]);
    }
  }

  /** Normalising preserves meaning: from every working directory, a path and its normal form reach the
      same place. */
  lemma {:induction false} NormalizeKeepsThePlace(path: Path, from: Location)
    ensures Resolve(from, Normalize(path)) == Resolve(from, path)
  {
    OntoKeepsThePlace(from, [], path);
  }

  // ----- the normal form is canonical

  function Climbs(path: seq<Component>): nat {
    if path != [] && path[0] == ParentDir then 1 + Climbs(path[1..]) else 0
  }

  function Names(path: seq<Component>): seq<string> {
    if path == [] then []
    else if path[0].Normal? then [path[0].name] + Names(path[1..])
    else Names(path[1..])
  }

  /** Where a location is left after climbing `k` times. */
  function Up(from: Location, k: nat): Location {
    if k <= |from| then from[..|from| - k] else []
  }

  lemma {:induction false} UpOnce(from: Location, k: nat)
    ensures Up(Enter(from, ParentDir), k) == Up(from, k + 1)
  {}

  lemma {:induction false} NamesOnly(path: seq<Component>, from: Location)
    requires forall k :: 0 <= k < |path| ==> path[k].Normal?
    ensures Resolve(from, path) == from + Names(path)
    ensures |Names(path)| == |path| && forall k :: 0 <= k < |path| ==> path[k] == Normal(Names(path)[k])
    decreases |path|
  {
    if path != [] {
      NamesOnly(path[1..], Enter(from, path[0]));
    }
  }

  lemma {:induction false} TailIsNormalForm(path: seq<Component>)
    requires IsNormalForm(path) && path != []
    ensures IsNormalForm(path[1..])
    ensures path[0] != ParentDir ==> forall k :: 0 <= k < |path[1..]| ==> path[1..][k].Normal?
    ensures path[1..] != [] ==> path[1] != RootDir
  {
    forall k | 0 < k < |path| && path[0] != ParentDir ensures path[k].Normal? {}
  }

  /** A normal form says exactly this: start over or climb some steps, then enter some names. */
  lemma {:induction false} NormalFormReaches(path: seq<Component>, from: Location)
    requires IsNormalForm(path)
    ensures Resolve(from, path) ==
            if path != [] && path[0] == RootDir then Names(path) else Up(from, Climbs(path)) + Names(path)
    decreases |path|
  {
    if path != [] {
      var rest := path[1..];
      TailIsNormalForm(path);
      if path[0] == ParentDir {
        hide IsNormalForm, Enter, Up;
        NormalFormReaches(rest, Enter(from, ParentDir));
        UpOnce(from, Climbs(rest));
      } else {
        assert path[0] != CurDir;
        hide IsNormalForm;
        NamesOnly(rest, Enter(from, path[0]));
        assert path[0].Normal? ==> from + [path[0].name] + Names(rest) == from + ([path[0].name] + Names(rest));
      }
    }
  }

  lemma {:induction false} NormalFormsAgree(p: seq<Component>, q: seq<Component>)
    requires IsNormalForm(p) && IsNormalForm(q)
    requires (p != [] && p[0] == RootDir) == (q != [] && q[0] == RootDir)
    requires Climbs(p) == Climbs(q) && Names(p) == Names(q)
    ensures p == q
    decreases |p|
  {
    if p == [] || q == [] {
      EmptyOrNot(p);
      EmptyOrNot(q);
    } else {
      TailIsNormalForm(p);
      TailIsNormalForm(q);
      hide IsNormalForm;
      if p[0] == ParentDir {
        NormalFormsAgree(p[1..], q[1..]);
      } else {
        assert p[0] == q[0] && Names(p[1..]) == Names(q[1..]) by {
          assert p[0].Normal? ==> Names(p)[0] == p[0].name && Names(p)[1..] == Names(p[1..]);
          assert q[0].Normal? ==> Names(q)[0] == q[0].name && Names(q)[1..] == Names(q[1..]);
        }
        SameNames(p[1..], q[1..]);
      }
      assert p == [p[0]] + p[1..] && q == [q[0]] + q[1..];
    }
  }

  lemma {:induction false} SameNames(p: seq<Component>, q: seq<Component>)
    requires forall k :: 0 <= k < |p| ==> p[k].Normal?
    requires forall k :: 0 <= k < |q| ==> q[k].Normal?
    requires Names(p) == Names(q)
    ensures p == q
  {
    NamesOnly(p, []);
    NamesOnly(q, []);
  }

  lemma {:induction false} EmptyOrNot(p: seq<Component>)
    requires IsNormalForm(p) && (p == [] || p[0] != RootDir)
    ensures p == [] <==> Climbs(p) == 0 && Names(p) == []
  {}

  /** A name longer than any of these. */
  function Novel(names: seq<string>): (novel: string)
    ensures IsName(novel) && novel !in names
  {
    LongerIsNew(names, Longest(names) + 1);
    var letters := seq(Longest(names) + 1, _ => 'x');
    assert letters[0] == 'x' && forall c :: c in letters ==> c == 'x';
    letters
  }

  function Longest(names: seq<string>): nat {
    if names == [] then 0
    else if Longest(names[1..]) < |names[0]| then |names[0]| else Longest(names[1..])
  }

  lemma {:induction false} LongerIsNew(names: seq<string>, n: nat)
    requires n > Longest(names)
    ensures forall name :: name in names ==> |name| < n
  {
    if names != [] { LongerIsNew(names[1..], n); }
  }

  /** A working directory deep enough for both, none of whose names either path mentions. */
  function Elsewhere(p: Path, q: Path): (from: Location)
    ensures IsLocation(from) && |from| == Climbs(p) + Climbs(q) + 1
    ensures forall k :: 0 <= k < |from| ==> from[k] == Novel(Names(p) + Names(q))
  {
    seq(Climbs(p) + Climbs(q) + 1, _ => Novel(Names(p) + Names(q)))
  }

  lemma {:induction false} NormalFormsDiffer(p: Path, q: Path)
    requires IsNormalForm(p) && IsNormalForm(q) && p != q
    ensures Resolve(Elsewhere(p, q), p) != Resolve(Elsewhere(p, q), q)
  {
    hide IsNormalForm, Resolve, Names, Longest, IsName;
    var from := Elsewhere(p, q);
    var novel := Novel(Names(p) + Names(q));
    assert novel !in Names(p) && novel !in Names(q);
    NormalFormReaches(p, from);
    NormalFormReaches(q, from);
    if Climbs(p) == Climbs(q) && Names(p) == Names(q) && IsAbsolute(p) == IsAbsolute(q) {
      NormalFormsAgree(p, q);
    } else if IsAbsolute(p) && !IsAbsolute(q) {
      StemIsNew(from, novel, Climbs(q), Names(q), Names(p));
    } else if !IsAbsolute(p) && IsAbsolute(q) {
      StemIsNew(from, novel, Climbs(p), Names(p), Names(q));
    } else if !IsAbsolute(p) {
      StemsDiffer(from, novel, Climbs(p), Names(p), Climbs(q), Names(q));
    }
  }

  lemma {:induction false} StemIsNew(from: Location, novel: string, climbs: nat, names: seq<string>, other: seq<string>)
    requires climbs < |from| && (forall k :: 0 <= k < |from| ==> from[k] == novel) && novel !in other
    ensures Up(from, climbs) + names != other
  {
    assert (Up(from, climbs) + names)[0] == novel;
  }

  lemma {:induction false} StemsDiffer(from: Location, novel: string, k: nat, p: seq<string>, l: nat, q: seq<string>)
    requires k < |from| && l < |from| && (forall i :: 0 <= i < |from| ==> from[i] == novel)
    requires novel !in p && novel !in q && (k != l || p != q)
    ensures Up(from, k) + p != Up(from, l) + q
  {
    var (reachP, reachQ) := (Up(from, k) + p, Up(from, l) + q);
    if k == l {
      assert reachP[|from| - k..] == p && reachQ[|from| - l..] == q;
    } else if k < l {
      assert reachP[|from| - l] == novel;
      assert |reachQ| > |from| - l ==> reachQ[|from| - l] == q[0];
    } else {
      assert reachQ[|from| - k] == novel;
      assert |reachP| > |from| - k ==> reachP[|from| - k] == p[0];
    }
  }

  /** Canonical: two paths have one normal form exactly when they agree from every working directory. */
  lemma {:induction false} SameNormalFormExactlyWhenSamePlace(p: Path, q: Path)
    ensures Normalize(p) == Normalize(q) <==> SamePlace(p, q)
  {
    forall from: Location
      ensures Resolve(from, Normalize(p)) == Resolve(from, p) && Resolve(from, Normalize(q)) == Resolve(from, q)
    {
      NormalizeKeepsThePlace(p, from);
      NormalizeKeepsThePlace(q, from);
    }
    if Normalize(p) != Normalize(q) {
      NormalFormsDiffer(Normalize(p), Normalize(q));
    }
  }

  /** A path that is its own normal form is left alone. */
  lemma {:induction false} NormalFormsAreFixed(path: Path)
    requires IsNormalForm(path)
    ensures Normalize(path) == path
  {
    NormalizeKeepsThePlace(path, Elsewhere(Normalize(path), path));
    if Normalize(path) != path { NormalFormsDiffer(Normalize(path), path); }
  }

  lemma {:induction false} JoinGoesOn(from: Location, base: Path, path: Path)
    ensures Resolve(from, Join(base, path)) == Resolve(Resolve(from, base), path)
  {
    if path != [] && path[0] == CurDir && base != [] {
      ResolveConcat(from, base, path[1..]);
    } else if !IsAbsolute(path) && base != [] {
      ResolveConcat(from, base, path);
    }
  }

  // ----- the comparison keys of src/config.rs

  /** What local paths are compared by: the normal form, with `.` standing for an empty one. */
  function LocalKey(path: Path): Path {
    if Normalize(path) == [] then [CurDir] else Normalize(path)
  }

  lemma {:induction false} LocalKeyKeepsThePlace(path: Path, from: Location)
    ensures Resolve(from, LocalKey(path)) == Resolve(from, path)
  {
    NormalizeKeepsThePlace(path, from);
    ResolveOne(from, CurDir);
  }

  /** Local keys are equal exactly when the paths reach the same place from every working directory. */
  lemma {:induction false} SameLocalKeyExactlyWhenSamePlace(p: Path, q: Path)
    ensures LocalKey(p) == LocalKey(q) <==> SamePlace(p, q)
  {
    assert forall path: Path {:trigger Normalize(path)} :: Normalize(path) != [] ==> Normalize(path)[0] != CurDir;
    hide Normalize, SamePlace;
    SameNormalFormExactlyWhenSamePlace(p, q);
  }

  /** Keying a root before or after joining a path onto it makes no difference. */
  lemma {:induction false} KeyBeforeOrAfterJoining(root: Path, path: Path)
    ensures LocalKey(Join(LocalKey(root), path)) == LocalKey(Join(root, path))
  {
    forall from: Location ensures Resolve(from, Join(LocalKey(root), path)) == Resolve(from, Join(root, path)) {
      JoinGoesOn(from, LocalKey(root), path);
      JoinGoesOn(from, root, path);
      LocalKeyKeepsThePlace(root, from);
    }
    SameLocalKeyExactlyWhenSamePlace(Join(LocalKey(root), path), Join(root, path));
  }

  /** Absolute paths: the key is the root and the location, whatever the working directory. */
  lemma {:induction false} AbsoluteKey(path: Path, from: Location)
    requires IsAbsolute(path)
    ensures IsAbsolute(LocalKey(path)) && Names(LocalKey(path)) == Resolve(from, path)
    ensures IsNormalForm(LocalKey(path))
  {
    NormalizeKeepsThePlace(path, from);
    AbsoluteStaysAbsolute([], path);
    NormalFormReaches(Normalize(path), from);
  }

  lemma {:induction false} AbsoluteStaysAbsolute(addressed: seq<Component>, rest: seq<Component>)
    requires WellFormed(rest)
    requires if addressed == [] then rest != [] && rest[0] == RootDir
             else addressed[0] == RootDir && (rest == [] || rest[0] != RootDir)
    ensures NormalizeOnto(addressed, rest) != [] && NormalizeOnto(addressed, rest)[0] == RootDir
    decreases |rest|
  {
    if rest != [] { AbsoluteStaysAbsolute(Push(addressed, rest[0]), rest[1..]); }
  }

  // ----- the path-safety guards

  /** Safe to join onto a root: only names and `.`, with the `.` stripped. */
  function ValidateRelativePath(path: Path): Option<Path> {
    if exists k :: 0 <= k < |path| && (path[k] == RootDir || path[k] == ParentDir) then None
    else if path != [] && path[0] == CurDir then Some(path[1..])
    else Some(path)
  }

  function ValidateRelativePathNonEmpty(path: Path): Option<Path> {
    match ValidateRelativePath(path)
    case Some(normalized) => if normalized == [] then None else Some(normalized)
    case None => None
  }

  /** What the guards let through: exactly the paths that neither start over nor climb, and with the
      non-empty form those of them that lead away from the root they are joined onto. */
  lemma {:induction false} GuardedExactly(path: Path, root: Location)
    ensures ValidateRelativePath(path).Some? <==> RootDir !in path && ParentDir !in path
    ensures ValidateRelativePathNonEmpty(path).Some? <==>
              RootDir !in path && ParentDir !in path && Resolve(root, path) != root
    ensures ValidateRelativePathNonEmpty(path).Some? ==> ValidateRelativePathNonEmpty(path) == ValidateRelativePath(path)
  {
    if ValidateRelativePath(path).Some? {
      assert forall k :: 0 <= k < |path| ==> path[k] != RootDir && path[k] != ParentDir;
      var normalized := ValidateRelativePath(path).value;
      GuardedPathsStayInside(path, root);
      forall k | 0 <= k < |normalized| ensures normalized[k].Normal? {
        assert normalized[k] == path[k] || normalized[k] == path[k + 1];
      }
      NamesOnly(normalized, root);
    }
  }

  /** What passes the relative guard addresses the same entry from any root, never leaves that root, and
      with the non-empty form never is the root itself. */
  lemma {:induction false} GuardedPathsStayInside(path: Path, root: Location)
    ensures ValidateRelativePath(path).Some? ==>
              Resolve(root, path) == root + Names(ValidateRelativePath(path).value)
    ensures ValidateRelativePath(path).Some? ==> ValidateRelativePath(path).value == Normalize(path)
    ensures ValidateRelativePathNonEmpty(path).Some? ==> root < Resolve(root, path)
  {
    if ValidateRelativePath(path).Some? {
      var normalized := ValidateRelativePath(path).value;
      forall k | 0 <= k < |normalized| ensures normalized[k].Normal? {
        assert normalized[k] == path[k] || normalized[k] == path[k + 1];
      }
      NamesOnly(normalized, root);
      if normalized != path { ResolveOne(root, CurDir); }
      forall from: Location ensures Resolve(from, normalized) == Resolve(from, path) {}
      SameNormalFormExactlyWhenSamePlace(normalized, path);
      NormalFormsAreFixed(normalized);
    }
  }

  method ValidateAbsoluteRemotePath(path: Path) returns (normalized: Option<Path>)
    ensures normalized.Some? <==> IsAbsolute(path) && ParentDir !in path
    ensures normalized.Some? ==> normalized.value == path == Normalize(path)
  {
    if path == [] || path[0] != RootDir {
      return None;
    }
    var kept: Path := [RootDir];
    for i := 1 to |path|
      invariant kept == path[..i] && ParentDir !in path[..i]
    {
      match path[i] {
        case Normal(_) => kept := kept + [path[i]];
        case CurDir => assert false;
        case ParentDir => return None;
        case RootDir => return None;
      }
    }
    assert kept == path && IsNormalForm(path);
    NormalFormsAreFixed(path);
    return Some(kept);
  }
}
