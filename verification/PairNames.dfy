/** src/config.rs: what may be a folder pair's name. The file reader checks one table at a time; this is
    proved to be one rule about the whole file, and to agree with the check a client makes of one name. */
module PairNames {
  import opened Basics
  import Paths

  const PAIR_NAME_MAX_LEN: nat := 64
  const DEFAULT_PAIR_NAME: string := "default"

  datatype Problem = Empty | BadCharacter | TooLong | PathComponent | LeadingDash | Duplicate | DefaultNotFirst

  predicate IsNameChar(c: char) {
    'a' <= c <= 'z' || 'A' <= c <= 'Z' || '0' <= c <= '9' || c == '.' || c == '_' || c == '-'
  }

  function Lower(c: char): char { if 'A' <= c <= 'Z' then (c as int + 32) as char else c }

  /** What names are compared by: ASCII letters folded. */
  function Key(name: string): (key: string)
    ensures |key| == |name| && forall k :: 0 <= k < |name| ==> key[k] == Lower(name[k])
  {
    seq(|name|, k requires 0 <= k < |name| => Lower(name[k]))
  }

  /** The shape of one name. Its bytes are its characters once the charset holds. */
  function CheckPairName(name: string): Option<Problem> {
    if name == "" then Some(Empty)
    else if exists k :: 0 <= k < |name| && !IsNameChar(name[k]) then Some(BadCharacter)
    else if |name| > PAIR_NAME_MAX_LEN then Some(TooLong)
    else if name == "." || name == ".." then Some(PathComponent)
    else if name[0] == '-' then Some(LeadingDash)
    else None
  }

  /** One name against the folded names it has to coexist with. */
  function CheckPairNameAmong(name: string, others: seq<string>, position: nat): Option<Problem> {
    if CheckPairName(name).Some? then CheckPairName(name)
    else if Key(name) in others then Some(Duplicate)
    else if position > 0 && Key(name) == DEFAULT_PAIR_NAME then Some(DefaultNotFirst)
    else None
  }

  function Keys(names: seq<string>): (keys: seq<string>)
    ensures |keys| == |names| && forall k :: 0 <= k < |names| ==> keys[k] == Key(names[k])
  {
    seq(|names|, k requires 0 <= k < |names| => Key(names[k]))
  }

  /** The client's check: every other pair's name, and where this one will sit. */
  function ValidatePairNameAmong(name: string, existing: seq<string>, position: nat): Option<Problem> {
    CheckPairNameAmong(name, Keys(existing), position)
  }

  /** The rule for a whole file: every name is well shaped, no two fold alike, and only the first may be
      the default pair's. */
  ghost predicate AllNamed(names: seq<string>) {
    && (forall i :: 0 <= i < |names| ==> CheckPairName(names[i]).None?)
    && (forall i, j :: 0 <= i < j < |names| ==> Key(names[i]) != Key(names[j]))
    && (forall i :: 0 < i < |names| ==> Key(names[i]) != DEFAULT_PAIR_NAME)
  }

  /** The file reader: accepts exactly the files the rule allows, and otherwise names the first table that
      the tables before it do not allow. */
  method ValidatePairNames(names: seq<string>) returns (refusal: Option<(nat, Problem)>)
    ensures refusal.None? <==> AllNamed(names)
    ensures refusal.Some? ==> refusal.value.0 < |names| && AllNamed(names[..refusal.value.0])
                              && !AllNamed(names[..refusal.value.0 + 1])
                              && Some(refusal.value.1) ==
                                 ValidatePairNameAmong(names[refusal.value.0], names[..refusal.value.0], refusal.value.0)
  {
    var seen: seq<string> := [];
    for position := 0 to |names|
      invariant seen == Keys(names[..position]) && AllNamed(names[..position])
    {
      assert names[..position + 1] == names[..position] + [names[position]];
      AppendedExactly(names[..position], names[position]);
      var problem := CheckPairNameAmong(names[position], seen, position);
      if problem.Some? {
        FilesExtend(names, position + 1);
        return Some((position, problem.value));
      }
      seen := seen + [Key(names[position])];
      assert seen == Keys(names[..position + 1]);
    }
    assert names[..|names|] == names;
    return None;
  }

  /** A file's first tables are a file. */
  lemma {:induction false} FilesExtend(names: seq<string>, n: nat)
    requires n <= |names|
    ensures AllNamed(names) ==> AllNamed(names[..n])
  {
    hide CheckPairName;
    forall i | 0 <= i < n ensures names[..n][i] == names[i] {}
  }

  /** A name put behind the others: the client's answer is the reader's. */
  lemma {:induction false} AppendedExactly(names: seq<string>, name: string)
    ensures AllNamed(names + [name]) <==> AllNamed(names) && ValidatePairNameAmong(name, names, |names|).None?
  {
    InsertedExactly(names, [], name);
    assert names + [name] + [] == names + [name] && names + [] == names;
  }

  /** A name put anywhere: the file is good exactly when the others were, the client's check passes, and
      the name does not push a pair called `default` off the first place, which that check cannot see. */
  lemma {:induction false} InsertedExactly(before: seq<string>, behind: seq<string>, name: string)
    ensures AllNamed(before + [name] + behind) <==>
            && AllNamed(before + behind)
            && ValidatePairNameAmong(name, before + behind, |before|).None?
            && (before == [] && behind != [] ==> Key(behind[0]) != DEFAULT_PAIR_NAME)
  {
    hide CheckPairName, Key;
    var (names, others, n) := (before + [name] + behind, before + behind, |before|);
    forall i | 0 <= i < |others| ensures others[i] == names[if i < n then i else i + 1] {}
    if AllNamed(names) {
      Without(names, others, n, name);
    }
    if AllNamed(others) && ValidatePairNameAmong(name, others, n).None?
       && (before == [] && behind != [] ==> Key(behind[0]) != DEFAULT_PAIR_NAME) {
      With(names, others, n, name);
    }
  }

  /** The input that shows it: a name put in front of `default` passes the client's check, and the reader
      refuses the file. */
  lemma {:induction false} DisplacingDefaultGoesUnseen()
    ensures ValidatePairNameAmong("x", [DEFAULT_PAIR_NAME], 0).None?
    ensures AllNamed([DEFAULT_PAIR_NAME]) && !AllNamed(["x", DEFAULT_PAIR_NAME])
  {
    assert "x"[0] == 'x' && Key("x")[0] == 'x' && DEFAULT_PAIR_NAME[0] == 'd';
    assert Key(DEFAULT_PAIR_NAME) == DEFAULT_PAIR_NAME;
    assert Keys([DEFAULT_PAIR_NAME]) == [DEFAULT_PAIR_NAME];
    assert ["x", DEFAULT_PAIR_NAME][1] == DEFAULT_PAIR_NAME;
  }

  lemma {:induction false} Without(names: seq<string>, others: seq<string>, n: nat, name: string)
    requires n <= |others| && |names| == |others| + 1 && names[n] == name && AllNamed(names)
    requires forall i :: 0 <= i < |others| ==> others[i] == names[if i < n then i else i + 1]
    ensures AllNamed(others) && ValidatePairNameAmong(name, others, n).None?
    ensures n == 0 && others != [] ==> Key(others[0]) != DEFAULT_PAIR_NAME
  {
    hide CheckPairName, Key;
    forall i, j | 0 <= i < j < |others| ensures Key(others[i]) != Key(others[j]) {
      var (a, b) := (if i < n then i else i + 1, if j < n then j else j + 1);
      assert Key(names[a]) != Key(names[b]);
    }
    forall i | 0 <= i < |others| ensures Key(others[i]) != Key(name) {
      var a := if i < n then i else i + 1;
      assert if a < n then Key(names[a]) != Key(names[n]) else Key(names[n]) != Key(names[a]);
    }
  }

  lemma {:induction false} With(names: seq<string>, others: seq<string>, n: nat, name: string)
    requires n <= |others| && |names| == |others| + 1
    requires AllNamed(others) && ValidatePairNameAmong(name, others, n).None?
    requires names[n] == name && forall i :: 0 <= i < |others| ==> others[i] == names[if i < n then i else i + 1]
    requires n == 0 && others != [] ==> Key(others[0]) != DEFAULT_PAIR_NAME
    ensures AllNamed(names)
  {
    hide CheckPairName, Key;
    assert CheckPairName(name).None? && Key(name) !in Keys(others);
    forall i | 0 <= i < |others| ensures Key(others[i]) != Key(name) { assert Key(others[i]) == Keys(others)[i]; }
    forall i, j | 0 <= i < j < |names| ensures Key(names[i]) != Key(names[j]) {
      assert i != n ==> names[i] == others[if i < n then i else i - 1];
      assert j != n ==> names[j] == others[if j < n then j else j - 1];
    }
    forall i | 0 < i < |names| ensures Key(names[i]) != DEFAULT_PAIR_NAME {
      assert i != n ==> names[i] == others[if i < n then i else i - 1];
    }
    forall i | 0 <= i < |names| ensures CheckPairName(names[i]).None? {
      assert i != n ==> names[i] == others[if i < n then i else i - 1];
    }
  }

  /** The two are the same letter, or the same character. */
  predicate SameLetter(c: char, d: char) {
    c == d || ('A' <= c <= 'Z' && d as int == c as int + 32) || ('A' <= d <= 'Z' && c as int == d as int + 32)
  }

  predicate SpelledAlike(a: string, b: string) { |a| == |b| && forall k :: 0 <= k < |a| ==> SameLetter(a[k], b[k]) }

  lemma {:induction false} KeysFoldCase(a: string, b: string)
    ensures Key(a) == Key(b) <==> SpelledAlike(a, b)
  {
    if Key(a) == Key(b) {
      forall k | 0 <= k < |a| ensures SameLetter(a[k], b[k]) { assert Key(a)[k] == Key(b)[k]; }
    }
  }

  /** The shapes a name may have: up to 64 of the ASCII letters, digits, `.`, `_` and `-`, not beginning with
      a dash, and neither `.` nor `..`; so never more than one component of a path, and never an option. */
  lemma {:induction false} NamesAccepted(name: string)
    ensures CheckPairName(name).None? <==>
              && 1 <= |name| <= 64 && name[0] != '-' && name != "." && name != ".."
              && forall k :: 0 <= k < |name| ==>
                   var c := name[k];
                   'a' <= c <= 'z' || 'A' <= c <= 'Z' || '0' <= c <= '9' || c in {'.', '_', '-'}
    ensures CheckPairName(name).None? ==> Paths.IsName(name)
  {
    assert forall k :: 0 <= k < |name| && name[k] == '/' ==> !IsNameChar(name[k]);
  }

  /** And a refusal says what is wrong. */
  lemma {:induction false} RefusedForWhatIsWrong(name: string, others: seq<string>, position: nat)
    ensures ValidatePairNameAmong(name, others, position) == Some(Empty) <==> name == ""
    ensures ValidatePairNameAmong(name, others, position) == Some(BadCharacter) ==>
              exists k :: 0 <= k < |name| && !('a' <= name[k] <= 'z' || 'A' <= name[k] <= 'Z' || '0' <= name[k] <= '9'
                                               || name[k] in {'.', '_', '-'})
    ensures ValidatePairNameAmong(name, others, position) == Some(TooLong) ==> |name| > 64
    ensures ValidatePairNameAmong(name, others, position) == Some(PathComponent) <==> name == "." || name == ".."
    ensures ValidatePairNameAmong(name, others, position) == Some(LeadingDash) ==> name[0] == '-'
    ensures ValidatePairNameAmong(name, others, position) == Some(Duplicate) ==> exists other :: other in others && SpelledAlike(name, other)
    ensures ValidatePairNameAmong(name, others, position) == Some(DefaultNotFirst) ==> position > 0 && SpelledAlike(name, "default")
  {
    hide Key, SpelledAlike;
    DefaultIsFolded();
    KeysFoldCase(name, "default");
    assert name == "." || name == ".." ==> CheckPairName(name) == Some(PathComponent);
    if CheckPairName(name).None? && Key(name) in Keys(others) {
      var k :| 0 <= k < |others| && Keys(others)[k] == Key(name);
      KeysFoldCase(name, others[k]);
      assert others[k] in others;
    }
  }

  /** The rule for a whole file, with nothing folded: every name accepted, no two the same but for the case
      of letters, and `default`, in any case, only in front. */
  lemma {:induction false} FilesAccepted(names: seq<string>)
    ensures AllNamed(names) <==>
              && (forall i :: 0 <= i < |names| ==> CheckPairName(names[i]).None?)
              && (forall i, j :: 0 <= i < j < |names| ==> !SpelledAlike(names[i], names[j]))
              && (forall i :: 0 < i < |names| ==> !SpelledAlike(names[i], "default"))
  {
    hide CheckPairName, Key, SpelledAlike;
    DefaultIsFolded();
    forall i, j | 0 <= i < j < |names| ensures Key(names[i]) == Key(names[j]) <==> SpelledAlike(names[i], names[j]) {
      KeysFoldCase(names[i], names[j]);
    }
    forall i | 0 <= i < |names| ensures Key(names[i]) == DEFAULT_PAIR_NAME <==> SpelledAlike(names[i], "default") {
      KeysFoldCase(names[i], "default");
    }
  }

  lemma {:induction false} DefaultIsFolded()
    ensures Key("default") == "default"
  {}

  /** Names are told apart only as far as a person can: two that differ in nothing but the case of ASCII
      letters never coexist. */
  lemma {:induction false} CaseTwinsNeverCoexist(names: seq<string>, i: nat, j: nat)
    requires i < |names| && j < |names| && i != j && AllNamed(names)
    ensures |names[i]| == |names[j]| ==> exists k :: 0 <= k < |names[i]| && !SameLetter(names[i][k], names[j][k])
  {
    hide CheckPairName;
    assert Key(names[i]) != Key(names[j]) by {
      assert if i < j then Key(names[i]) != Key(names[j]) else Key(names[j]) != Key(names[i]);
    }
    KeysFoldCase(names[i], names[j]);
  }
}
