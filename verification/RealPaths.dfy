/** src/config.rs: the overlap rule asked of paths as the file system names them. How a path is made real
    is a parameter; everything else is the rule's. */
module RealPaths {
  import opened Basics
  import opened Paths
  import opened PairRoots

  /** A pair that places its folder and both state files. */
  datatype Placed = Placed(root: Path, db: Path, lockfile: Path)

  datatype Real = Real(root: Path, db: Path, lockfile: Path)

  function FileOf(r: Real, f: StateFile): Path { if f == Db then r.db else r.lockfile }

  /** A state file keeps its own name in the real directory it lives in. */
  function OfStateFile(canon: Path -> Path, written: Path): Path {
    if |written| >= 2 && written[|written| - 1].Normal?
    then Join(canon(written[..|written| - 1]), [written[|written| - 1]])
    else canon(written)
  }

  function RealOf(canon: Path -> Path, p: Placed): Real {
    Real(canon(p.root), OfStateFile(canon, p.db), OfStateFile(canon, p.lockfile))
  }

  datatype Finding =
    | SameFolder
    | FolderInside
    | FolderContains
    | OwnStateInside(file: StateFile)
    | OtherStateInside(file: StateFile)
    | SameState(own: StateFile, other: StateFile)

  /** The rule, in the order it speaks: folders, then this pair's files, then the other's, then pairs of files. */
  function RealPathOverlap(one: Real, other: Real): Option<Finding> {
    if one.root == other.root then Some(SameFolder)
    else if other.root <= one.root then Some(FolderInside)
    else if one.root <= other.root then Some(FolderContains)
    else if other.root <= one.db then Some(OwnStateInside(Db))
    else if other.root <= one.lockfile then Some(OwnStateInside(Lockfile))
    else if one.root <= other.db then Some(OtherStateInside(Db))
    else if one.root <= other.lockfile then Some(OtherStateInside(Lockfile))
    else if one.db == other.db then Some(SameState(Db, Db))
    else if one.db == other.lockfile then Some(SameState(Db, Lockfile))
    else if one.lockfile == other.db then Some(SameState(Lockfile, Db))
    else if one.lockfile == other.lockfile then Some(SameState(Lockfile, Lockfile))
    else None
  }

  /** What "overlap" means, without an order. */
  ghost predicate Overlap(a: Real, b: Real) {
    || a.root <= b.root || b.root <= a.root
    || (exists f :: b.root <= FileOf(a, f)) || (exists f :: a.root <= FileOf(b, f))
    || (exists f, g :: FileOf(a, f) == FileOf(b, g))
  }

  /** What each finding says of the two pairs. */
  predicate Holds(finding: Finding, a: Real, b: Real) {
    match finding
    case SameFolder => a.root == b.root
    case FolderInside => b.root < a.root
    case FolderContains => a.root < b.root
    case OwnStateInside(f) => b.root <= FileOf(a, f)
    case OtherStateInside(f) => a.root <= FileOf(b, f)
    case SameState(f, g) => FileOf(a, f) == FileOf(b, g)
  }

  /** The rule finds something exactly when there is something, what it finds is true as worded, and which
      pair is asked about which does not matter. */
  lemma {:induction false} FindsExactlyTheOverlaps(a: Real, b: Real)
    ensures RealPathOverlap(a, b).Some? <==> Overlap(a, b)
    ensures RealPathOverlap(a, b).Some? ==> Holds(RealPathOverlap(a, b).value, a, b)
    ensures RealPathOverlap(a, b).Some? <==> RealPathOverlap(b, a).Some?
    ensures a.root <= b.root || b.root <= a.root <==>
            RealPathOverlap(a, b) in [Some(SameFolder), Some(FolderInside), Some(FolderContains)]
  {
    assert FileOf(a, Db) == a.db && FileOf(a, Lockfile) == a.lockfile;
    assert FileOf(b, Db) == b.db && FileOf(b, Lockfile) == b.lockfile;
  }

  predicate Clash(canon: Path -> Path, a: Option<Placed>, b: Option<Placed>) {
    a.Some? && b.Some? && RealPathOverlap(RealOf(canon, a.value), RealOf(canon, b.value)).Some?
  }

  /** A state file is judged in the real directory it lives in, by its own name; only a bare name, the root
      and a path that does not end in a name are made real whole. */
  lemma {:induction false} JudgedWhereItSits(canon: Path -> Path, directory: Path, name: string, written: Path)
    ensures directory != [] ==>
              OfStateFile(canon, directory + [Normal(name)]) == Join(canon(directory), [Normal(name)])
    ensures OfStateFile(canon, [Normal(name)]) == canon([Normal(name)])
    ensures written == [] || !written[|written| - 1].Normal? ==> OfStateFile(canon, written) == canon(written)
  {
    assert (directory + [Normal(name)])[..|directory|] == directory;
  }

  /** Two placed pairs clash exactly when their real folders nest, a state file of one lies in the other's
      real folder, or two state files are one. */
  lemma {:induction false} ClashesExactly(canon: Path -> Path, a: Placed, b: Placed)
    ensures Clash(canon, Some(a), Some(b)) <==>
            || canon(a.root) <= canon(b.root) || canon(b.root) <= canon(a.root)
            || (exists file | file in [a.db, a.lockfile] :: canon(b.root) <= OfStateFile(canon, file))
            || (exists file | file in [b.db, b.lockfile] :: canon(a.root) <= OfStateFile(canon, file))
            || (exists one, other | one in [a.db, a.lockfile] && other in [b.db, b.lockfile] ::
                  OfStateFile(canon, one) == OfStateFile(canon, other))
  {
    var (x, y) := (RealOf(canon, a), RealOf(canon, b));
    FindsExactlyTheOverlaps(x, y);
    assert FileOf(x, Db) == OfStateFile(canon, a.db) && FileOf(x, Lockfile) == OfStateFile(canon, a.lockfile);
    assert FileOf(y, Db) == OfStateFile(canon, b.db) && FileOf(y, Lockfile) == OfStateFile(canon, b.lockfile);
    hide RealPathOverlap, OfStateFile, Holds;
  }

  /** No two placed pairs overlap, neighbours or not. */
  ghost predicate NoClash(canon: Path -> Path, placed: seq<Option<Placed>>) {
    forall i, j :: 0 <= i < |placed| && 0 <= j < |placed| && i != j ==> !Clash(canon, placed[i], placed[j])
  }

  /** Accepts exactly the lists without a clash. Otherwise the answer is the end of the shortest clashing
      front of the list, with the least index it clashes with; pairs that place nothing never clash. */
  method RealPathConflicts(canon: Path -> Path, placed: seq<Option<Placed>>) returns (conflict: Option<(nat, nat)>)
    ensures conflict.None? <==> NoClash(canon, placed)
    ensures conflict.Some? ==>
              var (index, other) := conflict.value;
              && other < index < |placed| && Clash(canon, placed[index], placed[other])
              && NoClash(canon, placed[..index])
              && forall k :: 0 <= k < other ==> !Clash(canon, placed[index], placed[k])
  {
    hide RealPathOverlap;
    for index := 0 to |placed|
      invariant NoClash(canon, placed[..index])
    {
      for other := 0 to index
        invariant forall k :: 0 <= k < other ==> !Clash(canon, placed[index], placed[k])
      {
        if placed[index].Some? && placed[other].Some?
           && RealPathOverlap(RealOf(canon, placed[index].value), RealOf(canon, placed[other].value)).Some? {
          return Some((index, other));
        }
      }
      forall k | 0 <= k < index ensures !Clash(canon, placed[k], placed[index]) {
        ClashBothWays(canon, placed[k], placed[index]);
      }
    }
    assert placed[..|placed|] == placed;
    return None;
  }

  lemma {:induction false} ClashBothWays(canon: Path -> Path, a: Option<Placed>, b: Option<Placed>)
    ensures Clash(canon, a, b) <==> Clash(canon, b, a)
  {
    if a.Some? && b.Some? {
      hide RealPathOverlap;
      FindsExactlyTheOverlaps(RealOf(canon, a.value), RealOf(canon, b.value));
    }
  }

  // ----- the order of the tables

  /** The same, said of which pairs there are and how often rather than where. */
  ghost predicate NoClashAmong(canon: Path -> Path, pairs: multiset<Option<Placed>>) {
    && (forall a, b :: a in pairs && b in pairs && a != b ==> !Clash(canon, a, b))
    && (forall a :: a in pairs && a.Some? ==> pairs[a] == 1)
  }

  lemma {:induction false} TwoPlaces(placed: seq<Option<Placed>>, a: Option<Placed>) returns (i: nat, j: nat)
    requires multiset(placed)[a] >= 2
    ensures i < j < |placed| && placed[i] == a && placed[j] == a
  {
    assert placed == [placed[0]] + placed[1..];
    if placed[0] == a {
      assert a in multiset(placed[1..]);
      i := 0;
      j :| 0 < j < |placed| && placed[j] == a;
    } else {
      i, j := TwoPlaces(placed[1..], a);
      i, j := i + 1, j + 1;
    }
  }

  lemma {:induction false} TwoCopies(placed: seq<Option<Placed>>, i: nat, j: nat)
    requires i < j < |placed| && placed[i] == placed[j]
    ensures multiset(placed)[placed[i]] >= 2
  {
    assert placed == placed[..i] + [placed[i]] + placed[i + 1..j] + [placed[j]] + placed[j + 1..];
  }

  /** A pair overlaps itself, so a repeated table is always refused. */
  lemma {:induction false} ByContentsOnly(canon: Path -> Path, placed: seq<Option<Placed>>)
    ensures NoClash(canon, placed) <==> NoClashAmong(canon, multiset(placed))
  {
    hide RealPathOverlap;
    assert forall a :: a in multiset(placed) <==> a in placed;
    if NoClash(canon, placed) {
      forall a | a in multiset(placed) && a.Some? ensures multiset(placed)[a] == 1 {
        if multiset(placed)[a] >= 2 {
          var i, j := TwoPlaces(placed, a);
          ClashesWithItself(canon, a);
        }
      }
    }
    if NoClashAmong(canon, multiset(placed)) {
      forall i, j | 0 <= i < |placed| && 0 <= j < |placed| && i != j ensures !Clash(canon, placed[i], placed[j]) {
        if placed[i] == placed[j] && placed[i].Some? {
          if i < j { TwoCopies(placed, i, j); } else { TwoCopies(placed, j, i); }
        }
      }
    }
  }

  lemma {:induction false} ClashesWithItself(canon: Path -> Path, a: Option<Placed>)
    requires a.Some?
    ensures Clash(canon, a, a)
  {}

  /** Reordering the tables never changes whether a file is accepted. */
  lemma {:induction false} OrderDoesNotMatter(canon: Path -> Path, placed: seq<Option<Placed>>, reordered: seq<Option<Placed>>)
    requires multiset(placed) == multiset(reordered)
    ensures NoClash(canon, placed) <==> NoClash(canon, reordered)
  {
    ByContentsOnly(canon, placed);
    ByContentsOnly(canon, reordered);
  }
}
