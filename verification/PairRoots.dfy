/** src/config.rs: the rules that keep folder pairs apart. No pair's folder may be, contain or sit inside
    another's, on either side, and no pair's index or lockfile may be another's or sit in its folder. */
module PairRoots {
  import opened Basics
  import opened Paths

  /** One pair's table, as far as these rules read it. */
  datatype Pair = Pair(
    localRoot: Option<Path>,
    remoteRoot: Option<Path>,
    dbPath: Option<Path>,
    lockfilePath: Option<Path>)

  datatype StateFile = Db | Lockfile

  function Override(pair: Pair, file: StateFile): Option<Path> {
    if file == Db then pair.dbPath else pair.lockfilePath
  }

  /** `<root>/.sync/<name>`. */
  function DefaultState(root: Path, file: StateFile): Path {
    Join(root, [Normal(".sync"), Normal(if file == Db then "sync_index.db" else "proton-sync.lock")])
  }

  /** A leading `~` becomes the home directory when one is known; anything else, `~user` included, is
      kept as written. */
  function ExpandTilde(home: Option<Path>, path: Path): Path {
    if path != [] && path[0] == Normal("~") && home.Some? && home.value != [] then
      (if path[1..] == [] then home.value else Join(home.value, path[1..]))
    else path
  }

  function StatePathFrom(root: Path, override: Option<Path>, file: StateFile): Path {
    match override
    case Some(path) => if IsAbsolute(path) then path else Join(root, path)
    case None => DefaultState(root, file)
  }

  // ----- the comparison keys

  function RootKey(home: Option<Path>, pair: Pair): Option<Path> {
    match pair.localRoot
    case Some(root) => Some(LocalKey(ExpandTilde(home, root)))
    case None => None
  }

  /** Keyed after the join. An absolute override is placed with or without a root. */
  function StateKey(home: Option<Path>, pair: Pair, file: StateFile): Option<Path> {
    var root := RootKey(home, pair);
    match Override(pair, file)
    case Some(written) =>
      var value := ExpandTilde(home, written);
      if IsAbsolute(value) then Some(LocalKey(value))
      else (match root
            case Some(r) => Some(LocalKey(StatePathFrom(r, Some(value), file)))
            case None => None)
    case None =>
      match root
      case Some(r) => Some(LocalKey(DefaultState(r, file)))
      case None => None
  }

  /** A remote root without its root and `.` components; `..` is kept. */
  function RemotePathKey(path: seq<Component>): (key: Path)
    requires WellFormed(path)
    ensures forall k :: 0 <= k < |key| ==> key[k] != RootDir && key[k] != CurDir
  {
    if path != [] && (path[0] == RootDir || path[0] == CurDir) then path[1..] else path
  }

  function RemoteKey(pair: Pair): Option<Path> {
    match pair.remoteRoot case Some(root) => Some(RemotePathKey(root)) case None => None
  }

  // ----- what is refused

  predicate KeysOverlap(a: Option<Path>, b: Option<Path>) { a.Some? && b.Some? && Nested(a.value, b.value) }

  predicate SameFile(home: Option<Path>, p: Pair, f: StateFile, q: Pair, g: StateFile) {
    StateKey(home, p, f).Some? && StateKey(home, p, f) == StateKey(home, q, g)
  }

  predicate FileInside(home: Option<Path>, p: Pair, f: StateFile, q: Pair) {
    StateKey(home, p, f).Some? && RootKey(home, q).Some? && RootKey(home, q).value <= StateKey(home, p, f).value
  }

  /** Nothing of `p` overlaps anything of `q`, by the keys. */
  ghost predicate Apart(home: Option<Path>, p: Pair, q: Pair) {
    && !KeysOverlap(RootKey(home, p), RootKey(home, q))
    && !KeysOverlap(RemoteKey(p), RemoteKey(q))
    && NoSameFile(home, p, q)
    && NoFileInside(home, p, q)
  }

  ghost predicate NoSameFile(home: Option<Path>, p: Pair, q: Pair) { forall f, g :: !SameFile(home, p, f, q, g) }

  ghost predicate NoFileInside(home: Option<Path>, p: Pair, q: Pair) { forall f :: !FileInside(home, p, f, q) }

  ghost predicate AllApart(home: Option<Path>, pairs: seq<Pair>) {
    forall i, j :: 0 <= i < |pairs| && 0 <= j < |pairs| && i != j ==> Apart(home, pairs[i], pairs[j])
  }

  /** The rules in the order they speak. */
  datatype Refusal =
    | RootsOverlap(later: nat, earlier: nat)
    | RemotesOverlap(later: nat, earlier: nat)
    | OneStateFile(later: nat, laterFile: StateFile, earlier: nat, earlierFile: StateFile)
    | StateInsideRoot(pair: nat, file: StateFile, root: nat)

  /** The refusal names two pairs that break the rule it names. */
  ghost predicate Exhibits(home: Option<Path>, pairs: seq<Pair>, refusal: Refusal) {
    match refusal
    case RootsOverlap(i, j) => j < i < |pairs| && KeysOverlap(RootKey(home, pairs[i]), RootKey(home, pairs[j]))
    case RemotesOverlap(i, j) => j < i < |pairs| && KeysOverlap(RemoteKey(pairs[i]), RemoteKey(pairs[j]))
    case OneStateFile(i, f, j, g) => j < i < |pairs| && SameFile(home, pairs[i], f, pairs[j], g)
    case StateInsideRoot(i, f, j) => i < |pairs| && j < |pairs| && i != j && FileInside(home, pairs[i], f, pairs[j])
  }

  // ----- the loops

  datatype Kind = LocalRoots | RemoteRoots | StateFiles

  datatype Entry = Entry(pair: nat, file: StateFile, key: Path)

  /** The key a pair contributes to one of the three lists; only state files come in two. */
  function KeyOf(home: Option<Path>, pairs: seq<Pair>, kind: Kind, i: nat, file: StateFile): Option<Path>
    requires i < |pairs|
  {
    match kind
    case LocalRoots => if file == Db then RootKey(home, pairs[i]) else None
    case RemoteRoots => if file == Db then RemoteKey(pairs[i]) else None
    case StateFiles => StateKey(home, pairs[i], file)
  }

  /** `entries` holds exactly the keys the first `n` pairs contribute, in order. */
  ghost predicate Collects(home: Option<Path>, pairs: seq<Pair>, kind: Kind, entries: seq<Entry>, n: nat)
    requires n <= |pairs|
  {
    && (forall k :: 0 <= k < |entries| ==>
          entries[k].pair < n && KeyOf(home, pairs, kind, entries[k].pair, entries[k].file) == Some(entries[k].key))
    && (forall i: nat, f :: i < n && KeyOf(home, pairs, kind, i, f).Some? ==>
          Entry(i, f, KeyOf(home, pairs, kind, i, f).value) in entries)
    && (forall k, l :: 0 <= k < l < |entries| ==> entries[k].pair <= entries[l].pair)
  }

  method ValidatePairRoots(home: Option<Path>, pairs: seq<Pair>) returns (refusal: Option<Refusal>)
    ensures refusal.None? <==> AllApart(home, pairs)
    ensures refusal.Some? ==> Exhibits(home, pairs, refusal.value)
  {
    hide KeyOf, RootKey, RemoteKey, StateKey;
    var localRoots: seq<Entry>, remoteRoots: seq<Entry>, statePaths: seq<Entry> := [], [], [];
    for position := 0 to |pairs|
      invariant Collects(home, pairs, LocalRoots, localRoots, position)
      invariant Collects(home, pairs, RemoteRoots, remoteRoots, position)
      invariant Collects(home, pairs, StateFiles, statePaths, position)
    {
      localRoots := Collect(home, pairs, LocalRoots, localRoots, position);
      remoteRoots := Collect(home, pairs, RemoteRoots, remoteRoots, position);
      statePaths := Collect(home, pairs, StateFiles, statePaths, position);
    }
    refusal := CheckCollected(home, pairs, localRoots, remoteRoots, statePaths);
    if refusal.Some? {
      RefusalsAreReal(home, pairs, refusal.value);
    }
  }

  method Collect(home: Option<Path>, pairs: seq<Pair>, kind: Kind, entries: seq<Entry>, position: nat)
    returns (more: seq<Entry>)
    requires position < |pairs| && Collects(home, pairs, kind, entries, position)
    ensures Collects(home, pairs, kind, more, position + 1)
  {
    hide KeyOf, Collects, Contributes;
    var db := KeyOf(home, pairs, kind, position, Db);
    var lockfile := KeyOf(home, pairs, kind, position, Lockfile);
    var added: seq<Entry> := [];
    if db.Some? {
      added := added + [Entry(position, Db, db.value)];
    }
    if lockfile.Some? {
      added := added + [Entry(position, Lockfile, lockfile.value)];
    }
    BothContribute(home, pairs, kind, position, added);
    CollectsOneMore(home, pairs, kind, entries, position, added);
    return entries + added;
  }

  /** `added` is what pair `i` puts on a list. */
  ghost predicate Contributes(home: Option<Path>, pairs: seq<Pair>, kind: Kind, i: nat, added: seq<Entry>)
    requires i < |pairs|
  {
    && (forall k :: 0 <= k < |added| ==>
          added[k].pair == i && KeyOf(home, pairs, kind, i, added[k].file) == Some(added[k].key))
    && (forall f :: KeyOf(home, pairs, kind, i, f).Some? ==>
          exists k :: 0 <= k < |added| && added[k] == Entry(i, f, KeyOf(home, pairs, kind, i, f).value))
  }

  lemma {:induction false} BothContribute(home: Option<Path>, pairs: seq<Pair>, kind: Kind, i: nat, added: seq<Entry>)
    requires i < |pairs|
    requires var (db, lockfile) := (KeyOf(home, pairs, kind, i, Db), KeyOf(home, pairs, kind, i, Lockfile));
             added == (if db.Some? then [Entry(i, Db, db.value)] else [])
                      + (if lockfile.Some? then [Entry(i, Lockfile, lockfile.value)] else [])
    ensures Contributes(home, pairs, kind, i, added)
  {
    hide KeyOf;
    forall f | KeyOf(home, pairs, kind, i, f).Some?
      ensures exists k :: 0 <= k < |added| && added[k] == Entry(i, f, KeyOf(home, pairs, kind, i, f).value)
    {
      var k := if f == Db then 0 else |added| - 1;
      assert added[k] == Entry(i, f, KeyOf(home, pairs, kind, i, f).value);
    }
  }

  lemma {:induction false} CollectsOneMore(home: Option<Path>, pairs: seq<Pair>, kind: Kind, entries: seq<Entry>,
                                           position: nat, added: seq<Entry>)
    requires position < |pairs| && Collects(home, pairs, kind, entries, position)
    requires Contributes(home, pairs, kind, position, added)
    ensures Collects(home, pairs, kind, entries + added, position + 1)
  {
    hide KeyOf;
    var more := entries + added;
    forall i: nat, f | i < position + 1 && KeyOf(home, pairs, kind, i, f).Some?
      ensures Entry(i, f, KeyOf(home, pairs, kind, i, f).value) in more
    {
      var entry := Entry(i, f, KeyOf(home, pairs, kind, i, f).value);
      if i < position {
        assert entry in entries;
      } else {
        var k :| 0 <= k < |added| && added[k] == entry;
        assert more[|entries| + k] == entry;
      }
    }
  }

  /** The four rules, in the order they speak. */
  method CheckCollected(home: Option<Path>, pairs: seq<Pair>, localRoots: seq<Entry>, remoteRoots: seq<Entry>, statePaths: seq<Entry>)
    returns (refusal: Option<Refusal>)
    requires Collects(home, pairs, LocalRoots, localRoots, |pairs|)
    requires Collects(home, pairs, RemoteRoots, remoteRoots, |pairs|)
    requires Collects(home, pairs, StateFiles, statePaths, |pairs|)
    ensures refusal.None? ==> AllApart(home, pairs)
    ensures refusal.Some? ==> Exhibits(home, pairs, refusal.value)
  {
    hide RootKey, RemoteKey, StateKey, AllApart, Apart;
    var roots := CheckNoOverlap(localRoots);
    if roots.Some? {
      return Some(RootsOverlap(localRoots[roots.value.0].pair, localRoots[roots.value.1].pair));
    }
    var remotes := CheckNoOverlap(remoteRoots);
    if remotes.Some? {
      return Some(RemotesOverlap(remoteRoots[remotes.value.0].pair, remoteRoots[remotes.value.1].pair));
    }
    var same := FindSameState(statePaths);
    if same.Some? {
      var (later, earlier) := (statePaths[same.value.0], statePaths[same.value.1]);
      return Some(OneStateFile(later.pair, later.file, earlier.pair, earlier.file));
    }
    var inside := FindInside(statePaths, localRoots);
    if inside.Some? {
      var (path, root) := (statePaths[inside.value.0], localRoots[inside.value.1]);
      return Some(StateInsideRoot(path.pair, path.file, root.pair));
    }
    CollectedAreApart(home, pairs, localRoots, remoteRoots, statePaths);
    return None;
  }

  /** A refusal refutes acceptance: whichever rule spoke, two pairs are not apart. */
  lemma {:induction false} RefusalsAreReal(home: Option<Path>, pairs: seq<Pair>, refusal: Refusal)
    requires Exhibits(home, pairs, refusal)
    ensures !AllApart(home, pairs)
  {
    hide RootKey, RemoteKey, StateKey;
    var (i, j) := match refusal
      case RootsOverlap(i, j) => (i, j)
      case RemotesOverlap(i, j) => (i, j)
      case OneStateFile(i, _, j, _) => (i, j)
      case StateInsideRoot(i, _, j) => (i, j);
    assert !Apart(home, pairs[i], pairs[j]);
  }

  /** The first path, in order, that equals, contains or sits inside an earlier one of another pair. */
  method CheckNoOverlap(paths: seq<Entry>) returns (clash: Option<(nat, nat)>)
    ensures clash.None? ==> forall i, j :: 0 <= j < i < |paths| && paths[i].pair != paths[j].pair ==>
                              !Nested(paths[i].key, paths[j].key)
    ensures clash.Some? ==> clash.value.1 < clash.value.0 < |paths|
                            && paths[clash.value.0].pair != paths[clash.value.1].pair
                            && Nested(paths[clash.value.0].key, paths[clash.value.1].key)
  {
    for position := 0 to |paths|
      invariant forall i, j :: 0 <= j < i < position && paths[i].pair != paths[j].pair ==>
                  !Nested(paths[i].key, paths[j].key)
    {
      for other := 0 to position
        invariant forall j :: 0 <= j < other && paths[position].pair != paths[j].pair ==>
                    !Nested(paths[position].key, paths[j].key)
      {
        if paths[other].pair == paths[position].pair {
          continue;
        }
        if paths[position].key == paths[other].key || paths[other].key <= paths[position].key
           || paths[position].key <= paths[other].key {
          return Some((position, other));
        }
      }
    }
    return None;
  }

  method FindSameState(paths: seq<Entry>) returns (same: Option<(nat, nat)>)
    ensures same.None? ==> forall i, j :: 0 <= j < i < |paths| && paths[i].pair != paths[j].pair ==>
                             paths[i].key != paths[j].key
    ensures same.Some? ==> same.value.1 < same.value.0 < |paths|
                           && paths[same.value.0].pair != paths[same.value.1].pair
                           && paths[same.value.0].key == paths[same.value.1].key
  {
    for position := 0 to |paths|
      invariant forall i, j :: 0 <= j < i < position && paths[i].pair != paths[j].pair ==> paths[i].key != paths[j].key
    {
      for other := 0 to position
        invariant forall j :: 0 <= j < other && paths[position].pair != paths[j].pair ==> paths[position].key != paths[j].key
      {
        if paths[other].pair != paths[position].pair && paths[other].key == paths[position].key {
          return Some((position, other));
        }
      }
    }
    return None;
  }

  method FindInside(paths: seq<Entry>, roots: seq<Entry>) returns (inside: Option<(nat, nat)>)
    ensures inside.None? ==> forall i, j :: 0 <= i < |paths| && 0 <= j < |roots| && roots[j].pair != paths[i].pair ==>
                               !(roots[j].key <= paths[i].key)
    ensures inside.Some? ==> inside.value.0 < |paths| && inside.value.1 < |roots|
                             && roots[inside.value.1].pair != paths[inside.value.0].pair
                             && roots[inside.value.1].key <= paths[inside.value.0].key
  {
    for position := 0 to |paths|
      invariant forall i, j :: 0 <= i < position && 0 <= j < |roots| && roots[j].pair != paths[i].pair ==>
                  !(roots[j].key <= paths[i].key)
    {
      for root := 0 to |roots|
        invariant forall j :: 0 <= j < root && roots[j].pair != paths[position].pair ==>
                    !(roots[j].key <= paths[position].key)
      {
        if roots[root].pair != paths[position].pair && roots[root].key <= paths[position].key {
          return Some((position, root));
        }
      }
    }
    return None;
  }

  lemma {:induction false} CollectedAreApart(home: Option<Path>, pairs: seq<Pair>,
      roots: seq<Entry>, remotes: seq<Entry>, states: seq<Entry>)
    requires Collects(home, pairs, LocalRoots, roots, |pairs|)
    requires Collects(home, pairs, RemoteRoots, remotes, |pairs|)
    requires Collects(home, pairs, StateFiles, states, |pairs|)
    requires forall i, j :: 0 <= j < i < |roots| && roots[i].pair != roots[j].pair ==> !Nested(roots[i].key, roots[j].key)
    requires forall i, j :: 0 <= j < i < |remotes| && remotes[i].pair != remotes[j].pair ==> !Nested(remotes[i].key, remotes[j].key)
    requires forall i, j :: 0 <= j < i < |states| && states[i].pair != states[j].pair ==> states[i].key != states[j].key
    requires forall i, j :: 0 <= i < |states| && 0 <= j < |roots| && roots[j].pair != states[i].pair ==>
               !(roots[j].key <= states[i].key)
    ensures AllApart(home, pairs)
  {
    hide RootKey, RemoteKey, StateKey;
    forall i, j | 0 <= i < |pairs| && 0 <= j < |pairs| && i != j ensures Apart(home, pairs[i], pairs[j]) {
      var (p, q) := (pairs[i], pairs[j]);
      if RootKey(home, p).Some? && RootKey(home, q).Some? {
        NoOverlapHere(home, pairs, LocalRoots, roots, i, j);
      }
      if RemoteKey(p).Some? && RemoteKey(q).Some? {
        NoOverlapHere(home, pairs, RemoteRoots, remotes, i, j);
      }
      hide Nested, Collects, NoSameFile, NoFileInside;
      NoFileHere(home, pairs, roots, states, i, j);
    }
  }

  lemma {:induction false} NoFileHere(home: Option<Path>, pairs: seq<Pair>, roots: seq<Entry>, states: seq<Entry>, i: nat, j: nat)
    requires Collects(home, pairs, LocalRoots, roots, |pairs|) && Collects(home, pairs, StateFiles, states, |pairs|)
    requires i < |pairs| && j < |pairs| && i != j
    requires forall i, j :: 0 <= j < i < |states| && states[i].pair != states[j].pair ==> states[i].key != states[j].key
    requires forall i, j :: 0 <= i < |states| && 0 <= j < |roots| && roots[j].pair != states[i].pair ==>
               !(roots[j].key <= states[i].key)
    ensures NoSameFile(home, pairs[i], pairs[j]) && NoFileInside(home, pairs[i], pairs[j])
  {
    hide RootKey, StateKey, Collects;
    var (p, q) := (pairs[i], pairs[j]);
    forall f, g ensures !SameFile(home, p, f, q, g) {
      if StateKey(home, p, f).Some? && StateKey(home, q, g).Some? {
        var (s, t) := (EntryOf(home, pairs, StateFiles, states, i, f), EntryOf(home, pairs, StateFiles, states, j, g));
        assert if s < t then states[t].key != states[s].key else states[s].key != states[t].key;
      }
    }
    forall f ensures !FileInside(home, p, f, q) {
      if StateKey(home, p, f).Some? && RootKey(home, q).Some? {
        var (s, r) := (EntryOf(home, pairs, StateFiles, states, i, f), EntryOf(home, pairs, LocalRoots, roots, j, Db));
        assert !(roots[r].key <= states[s].key);
      }
    }
  }

  ghost function EntryOf(home: Option<Path>, pairs: seq<Pair>, kind: Kind, entries: seq<Entry>, i: nat, file: StateFile): (k: nat)
    requires Collects(home, pairs, kind, entries, |pairs|)
    requires i < |pairs| && KeyOf(home, pairs, kind, i, file).Some?
    ensures k < |entries| && entries[k] == Entry(i, file, KeyOf(home, pairs, kind, i, file).value)
  {
    var entry := Entry(i, file, KeyOf(home, pairs, kind, i, file).value);
    assert entry in entries;
    var k :| 0 <= k < |entries| && entries[k] == entry;
    k
  }

  lemma {:induction false} NoOverlapHere(home: Option<Path>, pairs: seq<Pair>, kind: Kind, entries: seq<Entry>, i: nat, j: nat)
    requires Collects(home, pairs, kind, entries, |pairs|)
    requires i < |pairs| && j < |pairs| && i != j
    requires KeyOf(home, pairs, kind, i, Db).Some? && KeyOf(home, pairs, kind, j, Db).Some?
    requires forall i, j :: 0 <= j < i < |entries| && entries[i].pair != entries[j].pair ==>
               !Nested(entries[i].key, entries[j].key)
    ensures !Nested(KeyOf(home, pairs, kind, i, Db).value, KeyOf(home, pairs, kind, j, Db).value)
  {
    hide KeyOf;
    var (s, t) := (EntryOf(home, pairs, kind, entries, i, Db), EntryOf(home, pairs, kind, entries, j, Db));
    assert if s < t then !Nested(entries[t].key, entries[s].key) else !Nested(entries[s].key, entries[t].key);
  }

  // ----- what acceptance promises about the disk

  /** Where a pair's folder is, when the daemon starts in `from`. */
  function RootAt(home: Option<Path>, pair: Pair, from: Location): Option<Location> {
    match pair.localRoot case Some(root) => Some(Resolve(from, ExpandTilde(home, root))) case None => None
  }

  /** Where the daemon would open a pair's index or lockfile: from the root as written, not its key. */
  function StateAt(home: Option<Path>, pair: Pair, file: StateFile, from: Location): Option<Location> {
    var override := match Override(pair, file) case Some(path) => Some(ExpandTilde(home, path)) case None => None;
    match pair.localRoot
    case Some(root) => Some(Resolve(from, StatePathFrom(ExpandTilde(home, root), override, file)))
    case None => if override.Some? && IsAbsolute(override.value) then Some(Resolve(from, override.value)) else None
  }

  /** On disk: no place lies under both folders, and no state file of `p` is one of `q`'s or in its folder. */
  ghost predicate DisjointOnDisk(home: Option<Path>, p: Pair, q: Pair, from: Location) {
    && NoSharedPlace(RootAt(home, p, from), RootAt(home, q, from))
    && StateFilesDiffer(home, p, q, from)
    && StateFilesOutside(home, p, q, from)
  }

  ghost predicate NoSharedPlace(a: Option<Location>, b: Option<Location>) {
    a.Some? && b.Some? ==> !exists place :: LiesUnder(place, a.value) && LiesUnder(place, b.value)
  }

  ghost predicate StateFilesDiffer(home: Option<Path>, p: Pair, q: Pair, from: Location) {
    forall f, g :: StateAt(home, p, f, from).Some? ==> StateAt(home, p, f, from) != StateAt(home, q, g, from)
  }

  ghost predicate StateFilesOutside(home: Option<Path>, p: Pair, q: Pair, from: Location) {
    forall f :: StateAt(home, p, f, from).Some? && RootAt(home, q, from).Some? ==>
      !LiesUnder(StateAt(home, p, f, from).value, RootAt(home, q, from).value)
  }

  predicate LiesUnder(place: Location, root: Location) { root <= place }

  /** Every folder that is named is named by an absolute path, once `~` is expanded. */
  predicate RootsAbsolute(home: Option<Path>, pairs: seq<Pair>) {
    forall i :: 0 <= i < |pairs| && pairs[i].localRoot.Some? ==> IsAbsolute(ExpandTilde(home, pairs[i].localRoot.value))
  }

  /** An absolute normal form is the root and its names. */
  lemma {:induction false} AbsolutePrefix(a: Path, b: Path)
    requires IsNormalForm(a) && IsAbsolute(a) && IsNormalForm(b) && IsAbsolute(b)
    ensures a <= b <==> Names(a) <= Names(b)
    ensures a == b <==> Names(a) == Names(b)
  {
    TailIsNormalForm(a);
    TailIsNormalForm(b);
    NamesOnly(a[1..], []);
    NamesOnly(b[1..], []);
    assert Names(a) == Names(a[1..]) && Names(b) == Names(b[1..]);
    if a <= b { assert forall k :: 0 <= k < |a[1..]| ==> a[1..][k] == b[1..][k]; }
    if Names(a) <= Names(b) {
      forall k | 0 <= k < |a| ensures a[k] == b[k] {
        if k > 0 {
          assert a[k] == a[1..][k - 1] == Normal(Names(a)[k - 1]);
          assert b[k] == b[1..][k - 1] == Normal(Names(b)[k - 1]);
        }
      }
    }
  }

  /** Component-wise containment of absolute keys is containment of places, from anywhere. */
  lemma {:induction false} AbsoluteKeysTellPlaces(p: Path, q: Path, from: Location)
    requires IsAbsolute(p) && IsAbsolute(q)
    ensures LocalKey(p) <= LocalKey(q) <==> Resolve(from, p) <= Resolve(from, q)
    ensures LocalKey(p) == LocalKey(q) <==> Resolve(from, p) == Resolve(from, q)
  {
    AbsoluteKey(p, from);
    AbsoluteKey(q, from);
    AbsolutePrefix(LocalKey(p), LocalKey(q));
  }

  lemma {:induction false} SharedPlace(a: Location, b: Location)
    ensures (exists place :: LiesUnder(place, a) && LiesUnder(place, b)) <==> a <= b || b <= a
  {
    if a <= b { assert LiesUnder(b, a) && LiesUnder(b, b); }
    if b <= a { assert LiesUnder(a, a) && LiesUnder(a, b); }
  }

  /** The path a state file is opened at. */
  function OpenedState(home: Option<Path>, pair: Pair, file: StateFile): Option<Path> {
    var override := match Override(pair, file) case Some(path) => Some(ExpandTilde(home, path)) case None => None;
    match pair.localRoot
    case Some(root) => Some(StatePathFrom(ExpandTilde(home, root), override, file))
    case None => if override.Some? && IsAbsolute(override.value) then override else None
  }

  /** The key compared and the path opened agree: keying the root before the join changes nothing. */
  lemma {:induction false} StateKeyIsOfTheOpenedPath(home: Option<Path>, pair: Pair, file: StateFile)
    ensures StateKey(home, pair, file).Some? <==> OpenedState(home, pair, file).Some?
    ensures StateKey(home, pair, file).Some? ==> StateKey(home, pair, file).value == LocalKey(OpenedState(home, pair, file).value)
  {
    if pair.localRoot.Some? {
      var root := ExpandTilde(home, pair.localRoot.value);
      var name := [Normal(".sync"), Normal(if file == Db then "sync_index.db" else "proton-sync.lock")];
      match Override(pair, file) {
        case Some(path) => KeyBeforeOrAfterJoining(root, ExpandTilde(home, path));
        case None => KeyBeforeOrAfterJoining(root, name);
      }
    }
  }

  /** A leading `~` leads on from the home directory; without one, or without a home, a path stays as it is. */
  lemma {:induction false} TildeIsHome(home: Option<Path>, path: Path, from: Location)
    ensures path != [] && path[0] == Normal("~") && home.Some? && home.value != [] ==>
              Resolve(from, ExpandTilde(home, path)) == Resolve(Resolve(from, home.value), path[1..])
    ensures path == [] || path[0] != Normal("~") || home.None? || home.value == [] ==> ExpandTilde(home, path) == path
  {
    if path != [] && path[0] == Normal("~") && home.Some? && home.value != [] {
      JoinGoesOn(from, home.value, path[1..]);
    }
  }

  /** `~/rest` and the home directory joined with `rest` are one folder, and never two pairs'. */
  lemma {:induction false} OneFolderSpelledTwice(home: Path, rest: Path, p: Pair, q: Pair)
    requires home != [] && home[0] != Normal("~") && WellFormed([Normal("~")] + rest)
    requires p.localRoot == Some([Normal("~")] + rest) && q.localRoot == Some(Join(home, rest))
    ensures !Apart(Some(home), p, q) && !Apart(Some(home), q, p)
  {
    var (short, long) := ([Normal("~")] + rest, Join(home, rest));
    assert short[1..] == rest;
    forall from: Location
      ensures Resolve(from, ExpandTilde(Some(home), short)) == Resolve(from, ExpandTilde(Some(home), long))
    {
      TildeIsHome(Some(home), short, from);
      TildeIsHome(Some(home), long, from);
      JoinGoesOn(from, home, rest);
    }
    hide ExpandTilde, Resolve;
    SameLocalKeyExactlyWhenSamePlace(ExpandTilde(Some(home), short), ExpandTilde(Some(home), long));
  }

  /** Where a pair's index is, in terms of its folder and what its table says: below the folder unless the
      table names a file, and that file from the folder on, or from the home directory, or as it stands. */
  lemma {:induction false} IndexIsWhereTheTableSays(home: Option<Path>, pair: Pair, from: Location)
    requires pair.localRoot.Some?
    ensures var folder := RootAt(home, pair, from).value;
            match pair.dbPath
            case None => StateAt(home, pair, Db, from) == Some(folder + [".sync", "sync_index.db"])
            case Some(path) => StateAt(home, pair, Db, from) == Some(StatedAt(home, folder, path, from))
  {
    StatedOrDefault(home, pair.localRoot.value, pair.dbPath, Db, from);
  }

  /** And where its lockfile is. */
  lemma {:induction false} LockfileIsWhereTheTableSays(home: Option<Path>, pair: Pair, from: Location)
    requires pair.localRoot.Some?
    ensures var folder := RootAt(home, pair, from).value;
            match pair.lockfilePath
            case None => StateAt(home, pair, Lockfile, from) == Some(folder + [".sync", "proton-sync.lock"])
            case Some(path) => StateAt(home, pair, Lockfile, from) == Some(StatedAt(home, folder, path, from))
  {
    StatedOrDefault(home, pair.localRoot.value, pair.lockfilePath, Lockfile, from);
  }

  /** Where a written path leads: from the home directory behind a `~`, and otherwise from the folder. */
  function StatedAt(home: Option<Path>, folder: Location, path: Path, from: Location): Location {
    if path != [] && path[0] == Normal("~") && home.Some? && home.value != [] then
      Resolve(Resolve(folder, home.value), path[1..])
    else Resolve(folder, path)
  }

  lemma {:induction false} StatedOrDefault(home: Option<Path>, root: Path, override: Option<Path>, file: StateFile, from: Location)
    ensures var (expanded, folder) := (ExpandTilde(home, root), Resolve(from, ExpandTilde(home, root)));
            match override
            case None =>
              Resolve(from, StatePathFrom(expanded, None, file)) ==
              folder + [".sync", if file == Db then "sync_index.db" else "proton-sync.lock"]
            case Some(path) =>
              Resolve(from, StatePathFrom(expanded, Some(ExpandTilde(home, path)), file)) == StatedAt(home, folder, path, from)
  {
    var expanded := ExpandTilde(home, root);
    var folder := Resolve(from, expanded);
    match override {
      case None =>
        var (directory, name) := (Normal(".sync"), Normal(if file == Db then "sync_index.db" else "proton-sync.lock"));
        JoinGoesOn(from, expanded, [directory, name]);
        NamesOnly([directory, name], folder);
        assert [directory, name][1..] == [name] && [name][1..] == [];
      case Some(path) =>
        var written := ExpandTilde(home, path);
        TildeIsHome(home, path, folder);
        if IsAbsolute(written) {
          FromAnywhere(written, from, folder);
        } else {
          JoinGoesOn(from, expanded, written);
        }
    }
  }

  lemma {:induction false} FromAnywhere(path: Path, from: Location, other: Location)
    requires IsAbsolute(path)
    ensures Resolve(from, path) == Resolve(other, path)
  {}

  lemma {:induction false} OpenedStateIsAbsolute(home: Option<Path>, pair: Pair, file: StateFile)
    requires pair.localRoot.Some? ==> IsAbsolute(ExpandTilde(home, pair.localRoot.value))
    ensures OpenedState(home, pair, file).Some? ==> IsAbsolute(OpenedState(home, pair, file).value)
  {}

  lemma {:induction false} RootsTellPlaces(home: Option<Path>, p: Pair, q: Pair, from: Location)
    requires p.localRoot.Some? ==> IsAbsolute(ExpandTilde(home, p.localRoot.value))
    requires q.localRoot.Some? ==> IsAbsolute(ExpandTilde(home, q.localRoot.value))
    ensures !KeysOverlap(RootKey(home, p), RootKey(home, q)) <==> NoSharedPlace(RootAt(home, p, from), RootAt(home, q, from))
  {
    if p.localRoot.Some? && q.localRoot.Some? {
      hide LocalKey, Resolve, ExpandTilde;
      var (rootP, rootQ) := (ExpandTilde(home, p.localRoot.value), ExpandTilde(home, q.localRoot.value));
      AbsoluteKeysTellPlaces(rootP, rootQ, from);
      AbsoluteKeysTellPlaces(rootQ, rootP, from);
      SharedPlace(Resolve(from, rootP), Resolve(from, rootQ));
    }
  }

  lemma {:induction false} FilesTellPlaces(home: Option<Path>, p: Pair, f: StateFile, q: Pair, g: StateFile, from: Location)
    requires p.localRoot.Some? ==> IsAbsolute(ExpandTilde(home, p.localRoot.value))
    requires q.localRoot.Some? ==> IsAbsolute(ExpandTilde(home, q.localRoot.value))
    ensures SameFile(home, p, f, q, g) <==>
            StateAt(home, p, f, from).Some? && StateAt(home, p, f, from) == StateAt(home, q, g, from)
    ensures FileInside(home, p, f, q) <==> StateAt(home, p, f, from).Some? && RootAt(home, q, from).Some?
                                           && LiesUnder(StateAt(home, p, f, from).value, RootAt(home, q, from).value)
  {
    StateKeyIsOfTheOpenedPath(home, p, f);
    StateKeyIsOfTheOpenedPath(home, q, g);
    OpenedStateIsAbsolute(home, p, f);
    OpenedStateIsAbsolute(home, q, g);
    StateAtIsOpened(home, p, f, from);
    StateAtIsOpened(home, q, g, from);
    hide StateKey, OpenedState, StateAt, LocalKey, Resolve, ExpandTilde;
    var (mine, other) := (OpenedState(home, p, f), OpenedState(home, q, g));
    if mine.Some? && other.Some? {
      AbsoluteKeysTellPlaces(mine.value, other.value, from);
    }
    if mine.Some? && q.localRoot.Some? {
      AbsoluteKeysTellPlaces(ExpandTilde(home, q.localRoot.value), mine.value, from);
    }
  }

  lemma {:induction false} StateAtIsOpened(home: Option<Path>, pair: Pair, file: StateFile, from: Location)
    ensures StateAt(home, pair, file, from) ==
            match OpenedState(home, pair, file) case Some(path) => Some(Resolve(from, path)) case None => None
  {}

  lemma {:induction false} StatesTellPlaces(home: Option<Path>, p: Pair, q: Pair, from: Location)
    requires p.localRoot.Some? ==> IsAbsolute(ExpandTilde(home, p.localRoot.value))
    requires q.localRoot.Some? ==> IsAbsolute(ExpandTilde(home, q.localRoot.value))
    ensures NoSameFile(home, p, q) <==> StateFilesDiffer(home, p, q, from)
    ensures NoFileInside(home, p, q) <==> StateFilesOutside(home, p, q, from)
  {
    hide StateAt, SameFile, FileInside, RootAt, ExpandTilde;
    forall f, g
      ensures SameFile(home, p, f, q, g) <==>
              StateAt(home, p, f, from).Some? && StateAt(home, p, f, from) == StateAt(home, q, g, from)
    {
      FilesTellPlaces(home, p, f, q, g, from);
    }
    forall f
      ensures FileInside(home, p, f, q) <==> StateAt(home, p, f, from).Some? && RootAt(home, q, from).Some?
                                             && LiesUnder(StateAt(home, p, f, from).value, RootAt(home, q, from).value)
    {
      FilesTellPlaces(home, p, f, q, f, from);
    }
  }

  lemma {:induction false} ApartExactlyWhenDisjoint(home: Option<Path>, p: Pair, q: Pair, from: Location)
    requires p.localRoot.Some? ==> IsAbsolute(ExpandTilde(home, p.localRoot.value))
    requires q.localRoot.Some? ==> IsAbsolute(ExpandTilde(home, q.localRoot.value))
    ensures Apart(home, p, q) <==> DisjointOnDisk(home, p, q, from) && !KeysOverlap(RemoteKey(p), RemoteKey(q))
  {
    hide KeysOverlap, NoSameFile, NoFileInside, NoSharedPlace, StateFilesDiffer, StateFilesOutside;
    RootsTellPlaces(home, p, q, from);
    StatesTellPlaces(home, p, q, from);
  }

  /** The promise, across both files: with absolute folders, a file is accepted exactly when on disk no
      place lies under two pairs' folders, no pair's index or lockfile is another's or lies in its folder,
      and no remote root is, contains or sits inside another. So nothing that overlaps is accepted, and
      nothing is refused that does not. */
  lemma {:induction false} AcceptedExactlyWhenDisjoint(home: Option<Path>, pairs: seq<Pair>, from: Location)
    requires RootsAbsolute(home, pairs)
    ensures AllApart(home, pairs) <==>
            forall i, j :: 0 <= i < |pairs| && 0 <= j < |pairs| && i != j ==>
              DisjointOnDisk(home, pairs[i], pairs[j], from) && !KeysOverlap(RemoteKey(pairs[i]), RemoteKey(pairs[j]))
  {
    hide Apart, DisjointOnDisk, KeysOverlap, ExpandTilde;
    forall i, j | 0 <= i < |pairs| && 0 <= j < |pairs| && i != j
      ensures Apart(home, pairs[i], pairs[j]) <==>
              DisjointOnDisk(home, pairs[i], pairs[j], from) && !KeysOverlap(RemoteKey(pairs[i]), RemoteKey(pairs[j]))
    {
      ApartExactlyWhenDisjoint(home, pairs[i], pairs[j], from);
    }
  }

  // ----- what a refusal, and a remote key, says of places

  /** The folder on Proton Drive a remote root names, read from the drive's root. */
  function RemoteAt(pair: Pair): Option<Location> {
    match pair.remoteRoot case Some(root) => Some(Resolve([], root)) case None => None
  }

  /** No remote root climbs; one that does never reaches the daemon. */
  predicate RemotesPlain(pairs: seq<Pair>) {
    forall i :: 0 <= i < |pairs| && pairs[i].remoteRoot.Some? ==> ParentDir !in pairs[i].remoteRoot.value
  }

  /** A plain remote key is the names of the folder, however its root and `.` were written. */
  lemma {:induction false} RemoteKeyIsNames(path: Path)
    requires ParentDir !in path
    ensures var key := RemotePathKey(path);
            && (forall k :: 0 <= k < |key| ==> key[k].Normal?)
            && Resolve([], path) == Names(key)
  {
    var key := RemotePathKey(path);
    forall k | 0 <= k < |key| ensures key[k].Normal? {
      assert key[k] in path;
    }
    NamesOnly(key, []);
    assert [] + Names(key) == Names(key);
  }

  lemma {:induction false} NamesPrefix(a: seq<Component>, b: seq<Component>)
    requires forall k :: 0 <= k < |a| ==> a[k].Normal?
    requires forall k :: 0 <= k < |b| ==> b[k].Normal?
    ensures a <= b <==> Names(a) <= Names(b)
  {
    NamesOnly(a, []);
    NamesOnly(b, []);
    if Names(a) <= Names(b) {
      assert forall k :: 0 <= k < |a| ==> Names(a)[k] == Names(b)[k];
    }
  }

  /** The components kept when the root and every `.` are filtered out. */
  function Kept(path: seq<Component>): seq<Component> {
    if path == [] then []
    else (if path[0] == RootDir || path[0] == CurDir then [] else [path[0]]) + Kept(path[1..])
  }

  /** A remote key is the path without its root and `.` components and with everything else, `..` too. */
  lemma {:induction false} RemoteKeyKeepsTheRest(path: Path)
    ensures RemotePathKey(path) == Kept(path)
  {
    AllKept(if path == [] then [] else path[1..]);
    assert path != [] ==> path == [path[0]] + path[1..];
  }

  lemma {:induction false} AllKept(path: seq<Component>)
    requires RootDir !in path && CurDir !in path
    ensures Kept(path) == path
  {
    if path != [] { AllKept(path[1..]); }
  }

  /** Remote keys nest exactly when the folders they name do. */
  lemma {:induction false} RemoteKeysTellFolders(p: Path, q: Path)
    requires ParentDir !in p && ParentDir !in q
    ensures Nested(RemotePathKey(p), RemotePathKey(q)) <==> Nested(Resolve([], p), Resolve([], q))
  {
    RemoteKeyIsNames(p);
    RemoteKeyIsNames(q);
    NamesPrefix(RemotePathKey(p), RemotePathKey(q));
    NamesPrefix(RemotePathKey(q), RemotePathKey(p));
  }

  lemma {:induction false} RemotesTellFolders(p: Pair, q: Pair)
    requires p.remoteRoot.Some? ==> ParentDir !in p.remoteRoot.value
    requires q.remoteRoot.Some? ==> ParentDir !in q.remoteRoot.value
    ensures !KeysOverlap(RemoteKey(p), RemoteKey(q)) <==> NoSharedPlace(RemoteAt(p), RemoteAt(q))
  {
    if p.remoteRoot.Some? && q.remoteRoot.Some? {
      RemoteKeysTellFolders(p.remoteRoot.value, q.remoteRoot.value);
      SharedPlace(Resolve([], p.remoteRoot.value), Resolve([], q.remoteRoot.value));
    }
  }

  /** What a refusal names collides where it would be found. */
  ghost predicate Collides(home: Option<Path>, pairs: seq<Pair>, refusal: Refusal, from: Location)
    requires Exhibits(home, pairs, refusal)
  {
    match refusal
    case RootsOverlap(i, j) => !NoSharedPlace(RootAt(home, pairs[i], from), RootAt(home, pairs[j], from))
    case RemotesOverlap(i, j) =>
      ParentDir !in pairs[i].remoteRoot.value && ParentDir !in pairs[j].remoteRoot.value ==>
        !NoSharedPlace(RemoteAt(pairs[i]), RemoteAt(pairs[j]))
    case OneStateFile(i, f, j, g) =>
      StateAt(home, pairs[i], f, from).Some? && StateAt(home, pairs[i], f, from) == StateAt(home, pairs[j], g, from)
    case StateInsideRoot(i, f, j) =>
      StateAt(home, pairs[i], f, from).Some? && RootAt(home, pairs[j], from).Some?
      && LiesUnder(StateAt(home, pairs[i], f, from).value, RootAt(home, pairs[j], from).value)
  }

  /** With absolute folders every refusal is true of the very pairs and files it names: of places on disk,
      and on the drive for remote roots that do not climb. */
  lemma {:induction false} RefusalsCollide(home: Option<Path>, pairs: seq<Pair>, refusal: Refusal, from: Location)
    requires RootsAbsolute(home, pairs) && Exhibits(home, pairs, refusal)
    ensures Collides(home, pairs, refusal, from)
  {
    hide RootKey, SameFile, FileInside, RootAt, StateAt, ExpandTilde;
    match refusal
    case RootsOverlap(i, j) => RootsTellPlaces(home, pairs[i], pairs[j], from);
    case RemotesOverlap(i, j) =>
      if ParentDir !in pairs[i].remoteRoot.value && ParentDir !in pairs[j].remoteRoot.value {
        RemotesTellFolders(pairs[i], pairs[j]);
      }
    case OneStateFile(i, f, j, g) => FilesTellPlaces(home, pairs[i], f, pairs[j], g, from);
    case StateInsideRoot(i, f, j) => FilesTellPlaces(home, pairs[i], f, pairs[j], f, from);
  }

  /** The promise on both sides, all in terms of places: no local folder, state file or Proton folder of
      one pair collides with another's, exactly when the file is accepted. */
  lemma {:induction false} AcceptedExactlyWhenDisjointOnBothSides(home: Option<Path>, pairs: seq<Pair>, from: Location)
    requires RootsAbsolute(home, pairs) && RemotesPlain(pairs)
    ensures AllApart(home, pairs) <==>
            forall i, j :: 0 <= i < |pairs| && 0 <= j < |pairs| && i != j ==>
              DisjointOnDisk(home, pairs[i], pairs[j], from) && NoSharedPlace(RemoteAt(pairs[i]), RemoteAt(pairs[j]))
  {
    AcceptedExactlyWhenDisjoint(home, pairs, from);
    hide AllApart, DisjointOnDisk, KeysOverlap, NoSharedPlace, RemoteKey, RemoteAt;
    forall i, j | 0 <= i < |pairs| && 0 <= j < |pairs| && i != j
      ensures !KeysOverlap(RemoteKey(pairs[i]), RemoteKey(pairs[j])) <==> NoSharedPlace(RemoteAt(pairs[i]), RemoteAt(pairs[j]))
    {
      RemotesTellFolders(pairs[i], pairs[j]);
    }
  }
}
