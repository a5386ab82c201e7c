/** How a path's text becomes components, and src/config.rs's rule for a state path that names no file. */
module PathText {
  import opened Basics
  import opened Paths

  function SlashAt(text: string): (at: nat)
    ensures at <= |text| && '/' !in text[..at]
    ensures at < |text| ==> text[at] == '/'
  {
    if text == "" || text[0] == '/' then 0 else SlashAt(text[1..]) + 1
  }

  /** An empty piece and a `.` vanish; every other piece is a component. */
  function PieceComponents(piece: string): seq<Component> {
    if piece == "" || piece == "." then [] else if piece == ".." then [ParentDir] else [Normal(piece)]
  }

  function Walk(text: string): seq<Component>
    decreases |text|
  {
    var at := SlashAt(text);
    if at == |text| then PieceComponents(text) else PieceComponents(text[..at]) + Walk(text[at + 1..])
  }

  /** A leading `/` is the root; a leading `.` is kept only in a relative path. */
  function Components(text: string): (path: Path)
    ensures IsAbsolute(path) <==> text != "" && text[0] == '/'
  {
    WalkYields(text);
    if text != "" && text[0] == '/' then [RootDir] + Walk(text)
    else if text[..SlashAt(text)] == "." then [CurDir] + Walk(text)
    else Walk(text)
  }

  lemma {:induction false} WalkYields(text: string)
    ensures forall k :: 0 <= k < |Walk(text)| ==>
              Walk(text)[k] == ParentDir || (Walk(text)[k].Normal? && IsName(Walk(text)[k].name))
    decreases |text|
  {
    var at := SlashAt(text);
    assert text[..|text|] == text;
    if at < |text| { WalkYields(text[at + 1..]); }
  }

  lemma {:induction false} SlashIn(a: string, b: string)
    requires '/' !in a
    ensures SlashAt(a + "/" + b) == |a| && SlashAt(a) == |a|
  {
    if a != "" {
      assert (a + "/" + b)[1..] == a[1..] + "/" + b;
      SlashIn(a[1..], b);
    }
  }

  /** One piece in front of the rest. */
  lemma {:induction false} WalkPiece(piece: string, rest: string)
    requires '/' !in piece
    ensures Walk(piece + "/" + rest) == PieceComponents(piece) + Walk(rest)
    ensures Walk(piece) == PieceComponents(piece)
    ensures (piece + "/" + rest)[..SlashAt(piece + "/" + rest)] == piece
    ensures piece[..SlashAt(piece)] == piece
  {
    hide PieceComponents;
    SlashIn(piece, rest);
    assert (piece + "/" + rest)[..|piece|] == piece && (piece + "/" + rest)[|piece| + 1..] == rest;
  }

  lemma {:induction false} FirstPiece(text: string) returns (piece: string, rest: string)
    requires '/' in text
    ensures text == piece + "/" + rest && '/' !in piece && |rest| < |text|
  {
    var at := SlashAt(text);
    assert text[..|text|] == text;
    piece, rest := text[..at], text[at + 1..];
  }

  lemma {:induction false} WalkConcat(a: string, b: string)
    ensures Walk(a + "/" + b) == Walk(a) + Walk(b)
    decreases |a|
  {
    hide Walk, SlashAt, PieceComponents;
    if '/' !in a {
      WalkPiece(a, b);
    } else {
      var piece, rest := FirstPiece(a);
      WalkConcat(rest, b);
      WalkPiece(piece, rest);
      WalkPiece(piece, rest + "/" + b);
      Regroup(piece + "/", rest, "/" + b);
      assert a + "/" + b == piece + "/" + (rest + "/" + b);
      Regroup(PieceComponents(piece), Walk(rest), Walk(b));
    }
  }

  /** The first piece of a text is the first piece of anything written behind it. */
  lemma {:induction false} SameFirstPiece(base: string, path: string)
    ensures (base + "/" + path)[..SlashAt(base + "/" + path)] == base[..SlashAt(base)]
  {
    if '/' !in base {
      WalkPiece(base, path);
    } else {
      var piece, rest := FirstPiece(base);
      WalkPiece(piece, rest);
      WalkPiece(piece, rest + "/" + path);
      assert base + "/" + path == piece + "/" + (rest + "/" + path);
    }
  }

  /** Only the empty text has no component at all. */
  lemma {:induction false} NotEmptied(text: string)
    requires text != ""
    ensures Components(text) != []
  {
    var piece := text[..SlashAt(text)];
    assert SlashAt(text) == |text| ==> piece == text;
    assert text[0] != '/' ==> piece != "";
  }

  /** Writing one relative text behind another joins the paths. */
  lemma {:induction false} JoinedText(base: string, path: string)
    requires base != "" && (path == "" || path[0] != '/')
    ensures Components(base + "/" + path) == Join(Components(base), Components(path))
  {
    hide Walk, SlashAt, PieceComponents;
    WalkConcat(base, path);
    SameFirstPiece(base, path);
    NotEmptied(base);
    assert (base + "/" + path)[0] == base[0];
    WalkYields(path);
    Regroup([RootDir], Walk(base), Walk(path));
    Regroup([CurDir], Walk(base), Walk(path));
  }

  // ----- writing components back

  function Piece(c: Component): string {
    match c
    case RootDir => ""
    case CurDir => "."
    case ParentDir => ".."
    case Normal(name) => name
  }

  function Text(path: seq<Component>): string {
    if path == [] then ""
    else if |path| == 1 then (if path[0] == RootDir then "/" else Piece(path[0]))
    else Piece(path[0]) + "/" + Text(path[1..])
  }

  predicate Named(path: seq<Component>) { forall k :: 0 <= k < |path| && path[k].Normal? ==> IsName(path[k].name) }

  /** The normaliser works on components and hands back text: reading that text gives them back. */
  lemma {:induction false} WrittenPathReadsBack(path: Path)
    requires Named(path)
    ensures Components(Text(path)) == path
  {
    if path == [] {
    } else if path == [RootDir] {
      RootReadsBack();
    } else if |path| == 1 {
      WalkPiece(Piece(path[0]), "");
    } else {
      LongPathReadsBack(path);
    }
  }

  lemma {:induction false} RootReadsBack()
    ensures Components("/") == [RootDir]
  {
    WalkPiece("", "");
    assert "" + "/" + "" == "/";
  }

  lemma {:induction false} LongPathReadsBack(path: Path)
    requires Named(path) && |path| > 1
    ensures Components(Text(path)) == path
  {
    var (first, rest) := (Piece(path[0]), Text(path[1..]));
    var text := first + "/" + rest;
    WalkOfText(path[1..]);
    hide Walk, SlashAt, Text;
    WalkPiece(first, rest);
    FrontPiece(path[0], text, path[1..]);
    assert path == [path[0]] + path[1..];
  }

  /** What the front piece of a written path contributes. */
  lemma {:induction false} FrontPiece(c: Component, text: string, tail: seq<Component>)
    requires c.Normal? ==> IsName(c.name)
    requires text != "" && text[0] == (Piece(c) + "/")[0] && text[..SlashAt(text)] == Piece(c)
    requires Walk(text) == PieceComponents(Piece(c)) + tail
    ensures Components(text) == [c] + tail
  {
    hide Walk, SlashAt;
    assert [] + tail == tail;
    match c
    case RootDir =>
    case CurDir =>
    case ParentDir => assert ".."[0] == '.';
    case Normal(name) => assert text[0] == name[0];
  }

  lemma {:induction false} WalkOfText(path: seq<Component>)
    requires Named(path) && forall k :: 0 <= k < |path| ==> path[k] == ParentDir || path[k].Normal?
    ensures Walk(Text(path)) == path
    decreases |path|
  {
    if path == [] {
      EmptyWalk();
    } else {
      var (first, rest) := (path[0], path[1..]);
      PieceOf(first);
      assert Text(path) == if rest == [] then Piece(first) else Piece(first) + "/" + Text(rest);
      hide Walk, SlashAt, PieceComponents, Piece, IsName, Text;
      WalkPiece(Piece(first), Text(rest));
      if rest != [] { WalkOfText(rest); }
      assert path == [first] + rest;
    }
  }

  lemma {:induction false} EmptyWalk()
    ensures Walk("") == []
  {}

  lemma {:induction false} PieceOf(c: Component)
    requires c == ParentDir || (c.Normal? && IsName(c.name))
    ensures PieceComponents(Piece(c)) == [c] && '/' !in Piece(c)
  {}

  // ----- a state path must name a file

  function FileName(path: seq<Component>): Option<string> {
    if path != [] && path[|path| - 1].Normal? then Some(path[|path| - 1].name) else None
  }

  predicate EndsWithSlash(text: string) { text != "" && text[|text| - 1] == '/' }

  predicate EndsWithSlashDot(text: string) { |text| >= 2 && text[|text| - 2] == '/' && text[|text| - 1] == '.' }

  /** The four arms of `require_state_path_names_a_file`. */
  predicate NamesNoFile(value: string) {
    FileName(Components(value)).None? || EndsWithSlash(value) || EndsWithSlashDot(value) || value == "~"
  }

  function AfterLastSlash(text: string): string
    decreases |text|
  {
    var at := SlashAt(text);
    if at == |text| then text else AfterLastSlash(text[at + 1..])
  }

  lemma {:induction false} AfterSlash(piece: string, rest: string)
    requires '/' !in piece
    ensures AfterLastSlash(piece + "/" + rest) == AfterLastSlash(rest)
    ensures AfterLastSlash(piece) == piece
  {
    SlashIn(piece, rest);
    assert (piece + "/" + rest)[|piece| + 1..] == rest;
  }

  /** A text is its last piece, or something, a slash and its last piece. */
  lemma {:induction false} LastPiece(text: string) returns (front: string)
    ensures '/' !in AfterLastSlash(text)
    ensures '/' in text ==> text == front + "/" + AfterLastSlash(text)
    ensures '/' !in text ==> text == AfterLastSlash(text)
    decreases |text|
  {
    hide AfterLastSlash, SlashAt;
    if '/' !in text {
      AfterSlash(text, "");
      front := "";
    } else {
      var piece, rest := FirstPiece(text);
      AfterSlash(piece, rest);
      var inner := LastPiece(rest);
      if '/' in rest {
        front := piece + "/" + inner;
        assert piece + "/" + (inner + "/" + AfterLastSlash(rest)) == piece + "/" + inner + "/" + AfterLastSlash(rest);
      } else {
        front := piece;
      }
    }
  }

  lemma {:induction false} Endings(front: string, last: string)
    requires '/' !in last
    ensures EndsWithSlash(front + "/" + last) <==> last == ""
    ensures EndsWithSlashDot(front + "/" + last) <==> last == "."
    ensures !EndsWithSlash(last) && !EndsWithSlashDot(last)
  {}

  /** The last component is what the last piece is. */
  lemma {:induction false} FileNameOfLastPiece(value: string)
    requires AfterLastSlash(value) != "" && AfterLastSlash(value) != "."
    ensures FileName(Components(value)).None? <==> AfterLastSlash(value) == ".."
  {
    hide AfterLastSlash, Walk, SlashAt;
    var last := AfterLastSlash(value);
    var front := LastPiece(value);
    WalkPiece(last, "");
    if '/' in value {
      WalkConcat(front, last);
    }
    var walked := Walk(value);
    assert walked != [] && [walked[|walked| - 1]] == PieceComponents(last);
    assert Components(value)[|Components(value)| - 1] == walked[|walked| - 1];
  }

  /** The byte test is exact: a value names no file exactly when its last piece is empty, `.` or `..`, or
      it is the bare home directory. Nothing a component walk forgets slips through, and no real file
      name is refused. */
  lemma {:induction false} NamesNoFileExactly(value: string)
    ensures NamesNoFile(value) <==>
            AfterLastSlash(value) == "" || AfterLastSlash(value) == "." || AfterLastSlash(value) == ".." || value == "~"
  {
    var last := AfterLastSlash(value);
    var front := LastPiece(value);
    Endings(front, last);
    if last != "" && last != "." {
      hide Components, AfterLastSlash, FileName;
      FileNameOfLastPiece(value);
    } else if '/' !in value {
      WalkPiece(value, "");
    }
  }
}
