/** src/dirconfig.rs: per-directory settings that inherit from the nearest directory above, and the cache
    that reads each directory's file at most once. */
module DirectoryConfig {
  import opened Basics
  import opened Paths

  datatype Policy = AskEveryTime | OnlyPermanent | Never | OnlyRecoverable

  datatype Approval = Approval(remote: Option<bool>, local: Option<bool>)

  /** One directory's file, parsed. */
  datatype Settings = Settings(approval: Option<Approval>, policy: Option<Policy>)

  const UNSET := Settings(None, None)

  /** What reading a directory's file gave. */
  datatype FileRead = Missing | Unreadable | Malformed | Parsed(settings: Settings)

  datatype Effective = Effective(remote: bool, local: bool)

  datatype Direction = Remote | Local

  function RequiresApproval(e: Effective, direction: Direction): bool {
    match direction case Remote => e.remote case Local => e.local
  }

  /** (remote, local) */
  function Directions(policy: Policy): (bool, bool) {
    match policy
    case AskEveryTime => (true, true)
    case OnlyPermanent => (false, true)
    case Never => (false, false)
    case OnlyRecoverable => (true, false)
  }

  /** One setting spelled two ways. */
  predicate Conflicts(s: Settings) { s.approval.Some? && s.policy.Some? }

  method ApplyTo(s: Settings, effective: Effective) returns (overlaid: Effective)
    ensures overlaid == Overlay(s, effective)
    ensures overlaid.remote ==
            if s.approval.Some? && s.approval.value.remote.Some? then s.approval.value.remote.value
            else if s.policy.Some? then s.policy.value in {AskEveryTime, OnlyRecoverable} else effective.remote
    ensures overlaid.local ==
            if s.approval.Some? && s.approval.value.local.Some? then s.approval.value.local.value
            else if s.policy.Some? then s.policy.value in {AskEveryTime, OnlyPermanent} else effective.local
  {
    overlaid := effective;
    if s.policy.Some? {
      var (remote, local) := Directions(s.policy.value);
      overlaid := Effective(remote, local);
    }
    if s.approval.Some? {
      if s.approval.value.remote.Some? {
        overlaid := overlaid.(remote := s.approval.value.remote.value);
      }
      if s.approval.value.local.Some? {
        overlaid := overlaid.(local := s.approval.value.local.value);
      }
    }
  }

  /** What a file sets for one direction, if anything. Both spellings together cannot occur in a file
      that counts; were they to, the finer one would win. */
  function Sets(s: Settings, direction: Direction): Option<bool> {
    var fine := match s.approval
      case Some(a) => (match direction case Remote => a.remote case Local => a.local)
      case None => None;
    if fine.Some? then fine
    else match s.policy
      case Some(p) => Some(match direction case Remote => Directions(p).0 case Local => Directions(p).1)
      case None => None
  }

  function Overlay(s: Settings, effective: Effective): Effective {
    Effective(match Sets(s, Remote) case Some(b) => b case None => effective.remote,
              match Sets(s, Local) case Some(b) => b case None => effective.local)
  }

  // ----- the plain fold

  type Directory = seq<string>
  type Files = Directory -> FileRead

  /** What a directory contributes: a missing, unreadable, malformed or ambiguous file contributes nothing. */
  function Contributed(files: Files, directory: Directory): Settings {
    match files(directory)
    case Parsed(settings) => if Conflicts(settings) then UNSET else settings
    case _ => UNSET
  }

  /** The directories above (and, for a directory, at) a path: prefixes of its names, root first. */
  function Depth(path: Path, isDirectory: bool): (depth: nat)
    ensures depth <= |Names(path)|
  {
    if isDirectory || Names(path) == [] then |Names(path)| else |Names(path)| - 1
  }

  /** Defaults overlaid by the first `k` directories of the chain of `names`. */
  function Fold(files: Files, defaults: Effective, names: Directory, k: nat): Effective
    requires k <= |names| + 1
  {
    if k == 0 then defaults
    else Overlay(Contributed(files, names[..k - 1]), Fold(files, defaults, names, k - 1))
  }

  function Resolved(files: Files, defaults: Effective, path: Path, isDirectory: bool): Effective {
    Fold(files, defaults, Names(path), Depth(path, isDirectory) + 1)
  }

  // ----- the cached resolver

  method DirectoryChain(path: Path, includeSelf: bool) returns (chain: seq<Directory>)
    ensures |chain| == Depth(path, includeSelf) + 1
    ensures forall k :: 0 <= k < |chain| ==> chain[k] == Names(path)[..k]
  {
    var components: seq<string> := [];
    for i := 0 to |path|
      invariant components + Names(path[i..]) == Names(path)
    {
      assert path[i..][1..] == path[i + 1..];
      if path[i].Normal? {
        components := components + [path[i].name];
      }
    }
    assert components == Names(path);
    var depth := if includeSelf then |components| else if |components| == 0 then 0 else |components| - 1;
    chain := [[]];
    var accumulated: Directory := [];
    for i := 0 to depth
      invariant accumulated == components[..i] && |chain| == i + 1
      invariant forall k :: 0 <= k < |chain| ==> chain[k] == components[..k]
    {
      accumulated := accumulated + [components[i]];
      chain := chain + [accumulated];
    }
  }

  class DirectoryConfigResolver {
    const files: Files
    const defaults: Effective
    var cache: map<Directory, Settings>
    /** Every file read so far, in order. */
    ghost var loaded: seq<Directory>

    /** The cache holds what the files say, and exactly the directories read, each read once. */
    ghost predicate Valid()
      reads this
    {
      && (forall d :: d in cache ==> cache[d] == Contributed(files, d))
      && (forall d :: d in cache <==> d in loaded)
      && (forall i, j :: 0 <= i < j < |loaded| ==> loaded[i] != loaded[j])
    }

    constructor (files: Files, defaults: Effective)
      ensures Valid() && this.files == files && this.defaults == defaults && cache == map[]
    {
      this.files, this.defaults := files, defaults;
      cache, loaded := map[], [];
    }

    /** The answer is the plain fold's, whatever was asked before and whatever the cache holds; only
        directories above the path are read, and none a second time. */
    method Resolve(path: Path, isDirectory: bool) returns (effective: Effective)
      requires Valid()
      modifies this
      ensures Valid() && old(loaded) <= loaded
      ensures effective == Resolved(files, defaults, path, isDirectory)
      ensures forall k :: |old(loaded)| <= k < |loaded| ==> loaded[k] <= Names(path)
    {
      hide Names, Overlay, Contributed, Depth;
      effective := defaults;
      var chain := DirectoryChain(path, isDirectory);
      for i := 0 to |chain|
        invariant Valid() && old(loaded) <= loaded
        invariant effective == Fold(files, defaults, Names(path), i)
        invariant forall k :: |old(loaded)| <= k < |loaded| ==> loaded[k] <= Names(path)
      {
        var settings := SettingsForDirectory(chain[i]);
        effective := ApplyTo(settings, effective);
      }
    }

    method SettingsForDirectory(directory: Directory) returns (settings: Settings)
      requires Valid()
      modifies this
      ensures Valid() && settings == Contributed(files, directory)
      ensures loaded == if directory in old(cache) then old(loaded) else old(loaded) + [directory]
      ensures forall d :: d in cache <==> d in old(cache) || d == directory
    {
      if directory in cache {
        return cache[directory];
      }
      settings := LoadDirectory(directory);
      cache := cache[directory := settings];
      loaded := loaded + [directory];
    }

    method LoadDirectory(directory: Directory) returns (settings: Settings)
      ensures settings == Contributed(files, directory)
    {
      match files(directory) {
        case Parsed(parsed) =>
          if Conflicts(parsed) {
            return UNSET;
          }
          return parsed;
        case Malformed => return UNSET;
        case Missing => return UNSET;
        case Unreadable => return UNSET;
      }
    }
  }

  // ----- what resolving means

  /** What the chain's directory at depth `j` says about `direction`. */
  function SetAt(files: Files, names: Directory, direction: Direction, j: nat): Option<bool>
    requires j <= |names|
  {
    Sets(Contributed(files, names[..j]), direction)
  }

  /** No directory from depth `from` to depth `to` says anything about `direction`. */
  ghost predicate NoneSets(files: Files, names: Directory, direction: Direction, from: nat, to: nat)
    requires to <= |names|
  {
    forall j :: from <= j <= to ==> SetAt(files, names, direction, j).None?
  }

  lemma {:induction false} FoldStep(files: Files, defaults: Effective, names: Directory, k: nat, direction: Direction)
    requires k <= |names|
    ensures RequiresApproval(Fold(files, defaults, names, k + 1), direction) ==
            match SetAt(files, names, direction, k)
            case Some(b) => b
            case None => RequiresApproval(Fold(files, defaults, names, k), direction)
  {}

  lemma {:induction false} FoldTakesTheDeepest(files: Files, defaults: Effective, names: Directory, depth: nat, direction: Direction, at: nat)
    requires at <= depth <= |names|
    requires SetAt(files, names, direction, at).Some? && NoneSets(files, names, direction, at + 1, depth)
    ensures RequiresApproval(Fold(files, defaults, names, depth + 1), direction) == SetAt(files, names, direction, at).value
    decreases depth
  {
    hide Fold, SetAt;
    FoldStep(files, defaults, names, depth, direction);
    if at < depth {
      FoldTakesTheDeepest(files, defaults, names, depth - 1, direction, at);
    }
  }

  lemma {:induction false} FoldKeepsTheDefault(files: Files, defaults: Effective, names: Directory, depth: nat, direction: Direction)
    requires depth <= |names| && NoneSets(files, names, direction, 0, depth)
    ensures RequiresApproval(Fold(files, defaults, names, depth + 1), direction) == RequiresApproval(defaults, direction)
    decreases depth
  {
    hide SetAt;
    FoldStep(files, defaults, names, depth, direction);
    if depth > 0 {
      FoldKeepsTheDefault(files, defaults, names, depth - 1, direction);
    }
  }

  /** `b` is what the deepest directory of the chain that sets `direction` says, or the default. */
  ghost predicate IsNearest(files: Files, defaults: Effective, names: Directory, depth: nat, direction: Direction, b: bool)
    requires depth <= |names|
  {
    if NoneSets(files, names, direction, 0, depth) then b == RequiresApproval(defaults, direction)
    else exists at :: 0 <= at <= depth && SetAt(files, names, direction, at) == Some(b)
                      && NoneSets(files, names, direction, at + 1, depth)
  }

  lemma {:induction false} DeepestSetting(files: Files, names: Directory, depth: nat, direction: Direction) returns (at: Option<nat>)
    requires depth <= |names|
    ensures at.None? ==> NoneSets(files, names, direction, 0, depth)
    ensures at.Some? ==> at.value <= depth && SetAt(files, names, direction, at.value).Some?
                         && NoneSets(files, names, direction, at.value + 1, depth)
    decreases depth
  {
    hide SetAt;
    if SetAt(files, names, direction, depth).Some? {
      at := Some(depth);
    } else if depth == 0 {
      at := None;
    } else {
      at := DeepestSetting(files, names, depth - 1, direction);
    }
  }

  lemma {:induction false} OnlyTheDeepest(files: Files, defaults: Effective, names: Directory, depth: nat, direction: Direction, at: nat, b: bool)
    requires at <= depth <= |names|
    requires SetAt(files, names, direction, at).Some? && NoneSets(files, names, direction, at + 1, depth)
    ensures IsNearest(files, defaults, names, depth, direction, b) <==> SetAt(files, names, direction, at) == Some(b)
  {
    hide SetAt;
    assert !NoneSets(files, names, direction, 0, depth);
    forall other | 0 <= other <= depth && SetAt(files, names, direction, other).Some?
                   && NoneSets(files, names, direction, other + 1, depth)
      ensures other == at
    {}
  }

  /** Nearest ancestor wins, direction by direction: the answer is what the deepest directory that says
      anything about that direction says, and the default only when none does. Nothing else is. */
  lemma {:induction false} NearestAncestorWins(files: Files, defaults: Effective, path: Path, isDirectory: bool, direction: Direction, b: bool)
    ensures RequiresApproval(Resolved(files, defaults, path, isDirectory), direction) == b <==>
            IsNearest(files, defaults, Names(path), Depth(path, isDirectory), direction, b)
  {
    hide Fold, SetAt, Names, Depth;
    var (names, depth) := (Names(path), Depth(path, isDirectory));
    var deepest := DeepestSetting(files, names, depth, direction);
    if deepest.Some? {
      FoldTakesTheDeepest(files, defaults, names, depth, direction, deepest.value);
      OnlyTheDeepest(files, defaults, names, depth, direction, deepest.value, b);
    } else {
      FoldKeepsTheDefault(files, defaults, names, depth, direction);
    }
  }

  // ----- the same, in terms of the files themselves

  /** A directory above `path`, or `path` itself when that is one; the root is always among them. */
  predicate Above(path: Path, isDirectory: bool, d: Directory) {
    d <= Names(path) && (isDirectory || d == [] || d != Names(path))
  }

  /** The file is sound and says `b` about `direction`: either the setting is spelled out by direction, or
      a policy is named. Asking every time asks about both; deletions on Proton Drive can be undone and
      those on the local disk cannot, so asking about the permanent ones is asking about the local side. */
  predicate Says(file: FileRead, direction: Direction, b: bool) {
    file.Parsed? &&
    match (file.settings.approval, file.settings.policy)
    case (Some(approval), None) => (if direction == Remote then approval.remote else approval.local) == Some(b)
    case (None, Some(policy)) =>
      b == (policy == AskEveryTime || policy == if direction == Remote then OnlyRecoverable else OnlyPermanent)
    case _ => false
  }

  predicate Silent(file: FileRead, direction: Direction) { !Says(file, direction, true) && !Says(file, direction, false) }

  lemma {:induction false} SetBySaying(files: Files, names: Directory, direction: Direction, j: nat, b: bool)
    requires j <= |names|
    ensures SetAt(files, names, direction, j) == Some(b) <==> Says(files(names[..j]), direction, b)
    ensures SetAt(files, names, direction, j).None? <==> Silent(files(names[..j]), direction)
  {
    var said := SetAt(files, names, direction, j);
    assert said == Some(true) <==> Says(files(names[..j]), direction, true);
    assert said == Some(false) <==> Says(files(names[..j]), direction, false);
    if said.Some? {
      if said.value { assert said == Some(true); } else { assert said == Some(false); }
    }
  }

  lemma {:induction false} AboveByDepth(path: Path, isDirectory: bool, d: Directory)
    ensures Above(path, isDirectory, d) <==> |d| <= Depth(path, isDirectory) && d == Names(path)[..|d|]
  {
    assert d <= Names(path) && |d| == |Names(path)| ==> d == Names(path);
  }

  /** No directory of at least so many names says anything. */
  ghost predicate QuietFrom(files: Files, path: Path, isDirectory: bool, direction: Direction, from: nat) {
    forall d :: Above(path, isDirectory, d) && from <= |d| ==> Silent(files(d), direction)
  }

  lemma {:induction false} NoneSetsIsQuiet(files: Files, path: Path, isDirectory: bool, direction: Direction, from: nat)
    ensures NoneSets(files, Names(path), direction, from, Depth(path, isDirectory)) <==> QuietFrom(files, path, isDirectory, direction, from)
  {
    hide Names, Depth, SetAt, Silent, Above;
    var (names, depth) := (Names(path), Depth(path, isDirectory));
    forall d ensures Above(path, isDirectory, d) <==> |d| <= depth && d == names[..|d|] { AboveByDepth(path, isDirectory, d); }
    forall j: nat | j <= depth ensures SetAt(files, names, direction, j).None? <==> Silent(files(names[..j]), direction) {
      SetBySaying(files, names, direction, j, true);
    }
    if QuietFrom(files, path, isDirectory, direction, from) {
      forall j | from <= j <= depth ensures SetAt(files, names, direction, j).None? {
        assert Above(path, isDirectory, names[..j]);
      }
    }
  }

  /** `d` says `b`, and no deeper directory says anything. */
  ghost predicate Decides(files: Files, path: Path, isDirectory: bool, direction: Direction, d: Directory, b: bool) {
    Above(path, isDirectory, d) && Says(files(d), direction, b) && QuietFrom(files, path, isDirectory, direction, |d| + 1)
  }

  lemma {:induction false} NearestDecides(files: Files, defaults: Effective, path: Path, isDirectory: bool, direction: Direction, b: bool)
    ensures IsNearest(files, defaults, Names(path), Depth(path, isDirectory), direction, b) <==>
              || (exists d :: Decides(files, path, isDirectory, direction, d, b))
              || (QuietFrom(files, path, isDirectory, direction, 0) && b == RequiresApproval(defaults, direction))
  {
    var (names, depth) := (Names(path), Depth(path, isDirectory));
    NoneSetsIsQuiet(files, path, isDirectory, direction, 0);
    hide Names, Depth, SetAt, Says, Above, NoneSets, QuietFrom;
    forall d | Decides(files, path, isDirectory, direction, d, b)
      ensures IsNearest(files, defaults, names, depth, direction, b)
    {
      DecidingIsNearest(files, defaults, path, isDirectory, direction, d, b);
    }
    if !NoneSets(files, names, direction, 0, depth) && IsNearest(files, defaults, names, depth, direction, b) {
      var at :| 0 <= at <= depth && SetAt(files, names, direction, at) == Some(b) && NoneSets(files, names, direction, at + 1, depth);
      var d := names[..at];
      AboveByDepth(path, isDirectory, d);
      SetBySaying(files, names, direction, at, b);
      NoneSetsIsQuiet(files, path, isDirectory, direction, at + 1);
      assert Decides(files, path, isDirectory, direction, d, b);
    }
  }

  lemma {:induction false} DecidingIsNearest(files: Files, defaults: Effective, path: Path, isDirectory: bool,
                                              direction: Direction, d: Directory, b: bool)
    requires Decides(files, path, isDirectory, direction, d, b)
    ensures IsNearest(files, defaults, Names(path), Depth(path, isDirectory), direction, b)
  {
    hide Names, Depth, SetAt, Says, Above, NoneSets, QuietFrom;
    AboveByDepth(path, isDirectory, d);
    SetBySaying(files, Names(path), direction, |d|, b);
    NoneSetsIsQuiet(files, path, isDirectory, direction, |d| + 1);
    SomethingSets(files, Names(path), direction, |d|, Depth(path, isDirectory));
  }

  lemma {:induction false} SomethingSets(files: Files, names: Directory, direction: Direction, at: nat, depth: nat)
    requires at <= depth <= |names| && SetAt(files, names, direction, at).Some?
    ensures !NoneSets(files, names, direction, 0, depth)
  {}

  /** The deepest directory above a path whose file says anything about a direction decides it, and the
      default does exactly when none says anything. */
  lemma {:induction false} DeepestFileDecides(files: Files, defaults: Effective, path: Path, isDirectory: bool, direction: Direction, b: bool)
    ensures var answer := Resolved(files, defaults, path, isDirectory);
            (if direction == Remote then answer.remote else answer.local) == b <==>
              || (exists d :: Decides(files, path, isDirectory, direction, d, b))
              || (QuietFrom(files, path, isDirectory, direction, 0)
                  && b == if direction == Remote then defaults.remote else defaults.local)
  {
    NearestAncestorWins(files, defaults, path, isDirectory, direction, b);
    NearestDecides(files, defaults, path, isDirectory, direction, b);
    hide Names, Depth, Resolved, Decides, QuietFrom, IsNearest;
  }

  /** Only the files above a path matter, and a file that is broken or spells one setting two ways
      matters exactly as much as no file. */
  lemma {:induction false} OnlySoundFilesAboveMatter(files: Files, others: Files, defaults: Effective, path: Path, isDirectory: bool)
    requires forall k :: 0 <= k <= Depth(path, isDirectory) ==>
               var d := Names(path)[..k];
               || files(d) == others(d)
               || (Contributed(files, d) == UNSET && others(d) == Missing)
    ensures Resolved(files, defaults, path, isDirectory) == Resolved(others, defaults, path, isDirectory)
  {
    FoldsAgree(files, others, defaults, Names(path), Depth(path, isDirectory) + 1);
  }

  lemma {:induction false} FoldsAgree(files: Files, others: Files, defaults: Effective, names: Directory, k: nat)
    requires k <= |names| + 1
    requires forall j :: 0 <= j < k ==> Contributed(files, names[..j]) == Contributed(others, names[..j])
    ensures Fold(files, defaults, names, k) == Fold(others, defaults, names, k)
  {
    if k > 0 {
      assert Contributed(files, names[..k - 1]) == Contributed(others, names[..k - 1]);
      FoldsAgree(files, others, defaults, names, k - 1);
    }
  }
}
