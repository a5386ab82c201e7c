/** src/doctor.rs: taking escape sequences out of a child's output. Three nested loops over one peeking
    reader are proved to be a one-pass automaton over control sequences (section 5.4 of ECMA-48), control
    strings and escape sequences, and the automaton is proved to leave nothing of them behind. */
module EscapeSequences {
  import opened Basics
  import Lcs

  const ESC: char := '\U{1b}'
  const BEL: char := '\U{7}'
  const CSI: char := '\U{9b}'
  const OSC: char := '\U{9d}'

  predicate IsIntermediate(c: char) { '\U{20}' <= c <= '\U{2f}' }
  predicate IsEscapeFinal(c: char) { '\U{30}' <= c <= '\U{7e}' }
  predicate IsCsiFinal(c: char) { '\U{40}' <= c <= '\U{7e}' }
  /** What opens a control string behind ESC: OSC, DCS, SOS, PM and APC. */
  predicate OpensString(c: char) { c == ']' || c == 'P' || c == 'X' || c == '^' || c == '_' }

  // ----- the automaton

  datatype Mode =
    | Ground             // text
    | Escape             // after ESC
    | Intermediates      // after ESC and intermediates
    | ControlSequence    // inside a CSI, up to its final
    | ControlString      // inside a string, up to BEL
    | StringEscape       // after ESC inside a string

  /** One character: the mode after it, and whether it is text to keep. */
  function Next(mode: Mode, c: char): (Mode, bool)
    decreases mode == Intermediates
  {
    match mode
    case Ground =>
      if c == ESC then (Escape, false)
      else if c == CSI then (ControlSequence, false)
      else if c == OSC then (ControlString, false)
      else (Ground, true)
    case Escape =>
      if c == ESC then (Escape, false)
      else if c == '[' then (ControlSequence, false)
      else if OpensString(c) then (ControlString, false)
      else if IsIntermediate(c) then (Intermediates, false)
      else (Ground, false)
    case Intermediates =>
      if IsIntermediate(c) then (Intermediates, false)
      else if IsEscapeFinal(c) then (Ground, false)
      else Next(Ground, c)
    case ControlSequence =>
      if c == ESC then (Escape, false) else if IsCsiFinal(c) then (Ground, false) else (ControlSequence, false)
    case ControlString =>
      if c == BEL then (Ground, false) else if c == ESC then (StringEscape, false) else (ControlString, false)
    case StringEscape =>
      if c == '\\' || c == BEL then (Ground, false) else if c == ESC then (StringEscape, false) else (ControlString, false)
  }

  /** The text an input leaves when read in `mode`; one cut off mid-sequence is dropped to the end. */
  function Run(mode: Mode, text: string): string
    decreases |text|
  {
    if text == "" then ""
    else
      var (next, keep) := Next(mode, text[0]);
      (if keep then [text[0]] else "") + Run(next, text[1..])
  }

  /** The mode an input leaves the automaton in. */
  function EndMode(mode: Mode, text: string): Mode
    decreases |text|
  {
    if text == "" then mode else EndMode(Next(mode, text[0]).0, text[1..])
  }

  // ----- the reader and the nested loops

  class Chars {
    const text: string
    var at: nat

    constructor (text: string)
      ensures this.text == text && at == 0
    {
      this.text := text;
      at := 0;
    }

    predicate Valid()
      reads this
    {
      at <= |text|
    }

    function Rest(): string
      requires Valid()
      reads this
    {
      text[at..]
    }

    function Peek(): Option<char>
      requires Valid()
      reads this
    {
      if at == |text| then None else Some(text[at])
    }

    method Take() returns (c: Option<char>)
      requires Valid()
      modifies this
      ensures Valid() && c == old(Peek())
      ensures c.None? ==> Rest() == old(Rest()) == ""
      ensures c.Some? ==> old(Rest()) == [c.value] + Rest() && at == old(at) + 1
    {
      c := Peek();
      if at < |text| {
        at := at + 1;
      }
    }
  }

  /** Reads on until the automaton, from inside a control sequence, would be where text is read. */
  method SkipCsi(chars: Chars)
    requires chars.Valid()
    modifies chars
    ensures chars.Valid() && chars.at >= old(chars.at)
    ensures Run(Ground, chars.Rest()) == old(Run(ControlSequence, chars.Rest()))
  {
    while chars.Peek().Some? && chars.Peek().value != ESC
      invariant chars.Valid() && chars.at >= old(chars.at)
      invariant Run(ControlSequence, chars.Rest()) == old(Run(ControlSequence, chars.Rest()))
      decreases |chars.text| - chars.at
    {
      var c := chars.Take();
      RunOne(ControlSequence, c.value, chars.Rest());
      if IsCsiFinal(c.value) {
        return;
      }
    }
    BeforeEscape(chars.Rest());
  }

  /** Reads on until the automaton, from inside a control string, would be where text is read. */
  method SkipString(chars: Chars)
    requires chars.Valid()
    modifies chars
    ensures chars.Valid() && chars.at >= old(chars.at)
    ensures Run(Ground, chars.Rest()) == old(Run(ControlString, chars.Rest()))
  {
    RunNothing();
    hide Run, Next;
    var c := chars.Take();
    while c.Some?
      invariant chars.Valid() && chars.at >= old(chars.at)
      invariant c.None? ==> chars.Rest() == "" && old(Run(ControlString, chars.Rest())) == ""
      invariant c.Some? ==> Run(ControlString, [c.value] + chars.Rest()) == old(Run(ControlString, chars.Rest()))
      decreases |chars.text| - chars.at, c.Some?
    {
      InString(c.value, chars.Rest());
      if c.value == BEL {
        return;
      }
      if c.value == ESC {
        if chars.Peek() == Some('\\') {
          var backslash := chars.Take();
          EndOfString(chars.Rest());
          return;
        }
        NotABackslash(chars.Rest());
      }
      c := chars.Take();
    }
  }

  method StripEscapeSequences(text: string) returns (kept: string)
    ensures kept == Run(Ground, text)
  {
    kept := "";
    var chars := new Chars(text);
    assert chars.Rest() == text;
    var c := chars.Take();
    while c.Some?
      invariant chars.Valid() && fresh(chars)
      invariant kept + Run(Ground, (if c.Some? then [c.value] else "") + chars.Rest()) == Run(Ground, text)
      invariant c.None? ==> chars.Rest() == ""
      decreases |chars.text| - chars.at, c.Some?
    {
      RunOne(Ground, c.value, chars.Rest());
      if c.value == ESC {
        SkipEscape(chars);
      } else if c.value == CSI {
        SkipCsi(chars);
      } else if c.value == OSC {
        SkipString(chars);
      } else {
        Regroup(kept, [c.value], Run(Ground, chars.Rest()));
        kept := kept + [c.value];
      }
      c := chars.Take();
      assert c.None? ==> "" + chars.Rest() == chars.Rest();
    }
    assert Run(Ground, "" + chars.Rest()) == "";
  }

  /** What follows an ESC. Another ESC, or nothing, is left for the next turn. */
  method SkipEscape(chars: Chars)
    requires chars.Valid()
    modifies chars
    ensures chars.Valid() && chars.at >= old(chars.at)
    ensures Run(Ground, chars.Rest()) == old(Run(Escape, chars.Rest()))
  {
    var next := chars.Peek();
    if next.None? || next.value == ESC {
      EscapeAgain(chars.Rest());
      return;
    }
    if next.value == '[' {
      var taken := chars.Take();
      RunOne(Escape, next.value, chars.Rest());
      SkipCsi(chars);
    } else if OpensString(next.value) {
      var taken := chars.Take();
      RunOne(Escape, next.value, chars.Rest());
      SkipString(chars);
    } else if IsIntermediate(next.value) {
      EscapeThenIntermediate(chars.Rest());
      while chars.Peek().Some? && IsIntermediate(chars.Peek().value)
        invariant chars.Valid() && chars.at >= old(chars.at)
        invariant Run(Intermediates, chars.Rest()) == old(Run(Escape, chars.Rest()))
        decreases |chars.text| - chars.at
      {
        var c := chars.Take();
        RunOne(Intermediates, c.value, chars.Rest());
      }
      if chars.Peek().Some? && IsEscapeFinal(chars.Peek().value) {
        var c := chars.Take();
        RunOne(Intermediates, c.value, chars.Rest());
      } else {
        NoMoreIntermediates(chars.Rest());
      }
    } else {
      var taken := chars.Take();
      RunOne(Escape, next.value, chars.Rest());
    }
  }

  lemma {:induction false} RunNothing()
    ensures forall mode :: Run(mode, "") == ""
  {}

  /** One character inside a control string. */
  lemma {:induction false} InString(c: char, rest: string)
    ensures Run(ControlString, [c] + rest) ==
            Run(if c == BEL then Ground else if c == ESC then StringEscape else ControlString, rest)
  {
    RunOne(ControlString, c, rest);
  }

  lemma {:induction false} EndOfString(rest: string)
    ensures Run(StringEscape, ['\\'] + rest) == Run(Ground, rest)
  {
    RunOne(StringEscape, '\\', rest);
  }

  lemma {:induction false} RunOne(mode: Mode, c: char, rest: string)
    ensures Run(mode, [c] + rest) == (if Next(mode, c).1 then [c] + Run(Next(mode, c).0, rest) else Run(Next(mode, c).0, rest))
  {
    assert ([c] + rest)[1..] == rest;
  }

  /** A control sequence that meets an ESC, or the end, has ended. */
  lemma {:induction false} BeforeEscape(rest: string)
    requires rest == "" || rest[0] == ESC
    ensures Run(ControlSequence, rest) == Run(Ground, rest)
  {}

  lemma {:induction false} EscapeAgain(rest: string)
    requires rest == "" || rest[0] == ESC
    ensures Run(Escape, rest) == Run(Ground, rest)
  {}

  lemma {:induction false} EscapeThenIntermediate(rest: string)
    requires rest != "" && IsIntermediate(rest[0])
    ensures Run(Escape, rest) == Run(Intermediates, rest)
  {}

  lemma {:induction false} NoMoreIntermediates(rest: string)
    requires rest == "" || (!IsIntermediate(rest[0]) && !IsEscapeFinal(rest[0]))
    ensures Run(Intermediates, rest) == Run(Ground, rest)
  {}

  lemma {:induction false} NotABackslash(rest: string)
    requires rest == "" || rest[0] != '\\'
    ensures Run(StringEscape, rest) == Run(ControlString, rest)
  {}

  // ----- what is left

  /** A reader that has read `a` goes on with `b` from where it is. */
  lemma {:induction false} RunConcat(mode: Mode, a: string, b: string)
    ensures Run(mode, a + b) == Run(mode, a) + Run(EndMode(mode, a), b)
    decreases |a|
  {
    if a == "" {
      assert a + b == b;
    } else {
      assert a + b == [a[0]] + (a[1..] + b) && a == [a[0]] + a[1..];
      RunOne(mode, a[0], a[1..] + b);
      RunOne(mode, a[0], a[1..]);
      var next := Next(mode, a[0]).0;
      RunConcat(next, a[1..], b);
      Regroup([a[0]], Run(next, a[1..]), Run(EndMode(mode, a), b));
    }
  }

  /** It holds no ESC and neither of the two one-character introducers. */
  predicate Clean(text: string) {
    forall k :: 0 <= k < |text| ==> text[k] != '\U{1b}' && text[k] != '\U{9b}' && text[k] != '\U{9d}'
  }

  /** Nothing that could begin a sequence survives, and what survives is in the order it came. */
  lemma {:induction false} NothingIntroducesASequence(mode: Mode, text: string)
    ensures Clean(Run(mode, text)) && Lcs.Subsequence(Run(mode, text), text)
    decreases |text|
  {
    if text != "" {
      var (next, keep) := Next(mode, text[0]);
      NothingIntroducesASequence(next, text[1..]);
      var rest := Run(next, text[1..]);
      assert ([text[0]] + rest)[1..] == rest;
      assert "" + rest == rest;
    }
  }

  /** Text is left exactly as it is if and only if nothing in it introduces a sequence. */
  lemma {:induction false} CleanTextExactlyUnchanged(text: string)
    ensures Run(Ground, text) == text <==> Clean(text)
    decreases |text|
  {
    NothingIntroducesASequence(Ground, text);
    if Clean(text) && text != "" {
      assert Clean(text[1..]);
      CleanTextExactlyUnchanged(text[1..]);
      assert text == [text[0]] + text[1..];
    }
  }

  /** Stripping twice is stripping once. */
  lemma {:induction false} StrippingTwiceIsStrippingOnce(text: string)
    ensures Run(Ground, Run(Ground, text)) == Run(Ground, text)
  {
    NothingIntroducesASequence(Ground, text);
    CleanTextExactlyUnchanged(Run(Ground, text));
  }

  /** Read from text, it leaves nothing and ends in text. */
  predicate Finishes(sequence: string) { Run(Ground, sequence) == "" && EndMode(Ground, sequence) == Ground }

  /** A finished sequence vanishes wherever it stands between two pieces of text. */
  lemma {:induction false} FinishedSequencesVanish(before: string, sequence: string, after: string)
    requires EndMode(Ground, before) == Ground
    requires Finishes(sequence)
    ensures Run(Ground, before + sequence + after) == Run(Ground, before + after)
  {
    RunConcat(Ground, before + sequence, after);
    RunConcat(Ground, before, sequence);
    RunConcat(Ground, before, after);
    EndConcat(Ground, before, sequence);
    assert Run(Ground, before) + "" == Run(Ground, before);
  }

  lemma {:induction false} EndConcat(mode: Mode, a: string, b: string)
    ensures EndMode(mode, a + b) == EndMode(EndMode(mode, a), b)
    decreases |a|
  {
    if a == "" {
      assert a + b == b;
    } else {
      assert (a + b)[1..] == a[1..] + b;
      EndConcat(Next(mode, a[0]).0, a[1..], b);
    }
  }

  /** A whole control sequence: CSI in either spelling, parameters and intermediates, and a final. */
  lemma {:induction false} ControlSequencesAreFinished(body: string, final: char)
    requires forall k :: 0 <= k < |body| ==> body[k] != '\U{1b}' && !('\U{40}' <= body[k] <= '\U{7e}')
    requires '\U{40}' <= final <= '\U{7e}'
    ensures Finishes(['\U{9b}'] + (body + [final])) && Finishes(['\U{1b}', '['] + (body + [final]))
  {
    ControlSequenceEnds(body, final);
    var tail := body + [final];
    assert ([CSI] + tail)[1..] == tail;
    assert ([ESC, '['] + tail)[1..] == ['['] + tail && (['['] + tail)[1..] == tail;
    assert "" + Run(ControlSequence, tail) == "";
  }

  lemma {:induction false} ControlSequenceEnds(body: string, final: char)
    requires forall k :: 0 <= k < |body| ==> body[k] != ESC && !IsCsiFinal(body[k])
    requires IsCsiFinal(final)
    ensures Run(ControlSequence, body + [final]) == "" && EndMode(ControlSequence, body + [final]) == Ground
  {
    if body == "" {
      assert (body + [final])[1..] == "" && body + [final] == [final];
    } else {
      assert (body + [final])[1..] == body[1..] + [final];
      ControlSequenceEnds(body[1..], final);
    }
  }

  /** Nothing in a control string's body ends it: no BEL, and no ESC with a backslash right behind it. */
  predicate EndsNoString(body: string) {
    forall k :: 0 <= k < |body| ==> body[k] != '\U{7}' && (body[k] == '\U{1b}' && k + 1 < |body| ==> body[k + 1] != '\\')
  }

  /** A whole control string: each introducer, a body, and either terminator. Other ESCs are body. */
  lemma {:induction false} ControlStringsAreFinished(opener: char, body: string, end: string)
    requires opener in {']', 'P', 'X', '^', '_'} && EndsNoString(body) && (end == ['\U{7}'] || end == ['\U{1b}', '\\'])
    ensures Finishes(['\U{9d}'] + (body + end)) && Finishes(['\U{1b}', opener] + (body + end))
  {
    var tail := body + end;
    ControlStringEnds(ControlString, body, end);
    Dropped(Ground, OSC, tail);
    Dropped(Ground, ESC, [opener] + tail);
    Dropped(Escape, opener, tail);
    assert [ESC, opener] + tail == [ESC] + ([opener] + tail);
  }

  /** A character that is not kept only changes the mode. */
  lemma {:induction false} Dropped(mode: Mode, c: char, rest: string)
    requires !Next(mode, c).1
    ensures Run(mode, [c] + rest) == Run(Next(mode, c).0, rest)
    ensures EndMode(mode, [c] + rest) == EndMode(Next(mode, c).0, rest)
  {
    assert ([c] + rest)[1..] == rest;
    assert "" + Run(Next(mode, c).0, rest) == Run(Next(mode, c).0, rest);
  }

  lemma {:induction false} ControlStringEnds(mode: Mode, body: string, end: string)
    requires mode == ControlString || (mode == StringEscape && (body == "" || body[0] != '\\'))
    requires EndsNoString(body) && (end == [BEL] || end == [ESC, '\\'])
    ensures Run(mode, body + end) == "" && EndMode(mode, body + end) == Ground
    decreases |body|
  {
    if body == "" {
      assert body + end == end;
      assert [ESC, '\\'][1..] == ['\\'] && ['\\'][1..] == "" && [BEL][1..] == "";
    } else {
      assert body + end == [body[0]] + (body[1..] + end);
      ControlStringEnds(if body[0] == ESC then StringEscape else ControlString, body[1..], end);
      Dropped(mode, body[0], body[1..] + end);
    }
  }

  /** Behind ESC, a character of none of the longer forms is a sequence by itself. */
  predicate EndsAtOnce(c: char) { c !in {'\U{1b}', '[', ']', 'P', 'X', '^', '_'} && !('\U{20}' <= c <= '\U{2f}') }

  /** A whole escape sequence: ESC and one character, or ESC, intermediates and a final. */
  lemma {:induction false} EscapeSequencesAreFinished(intermediates: string, final: char)
    requires forall k :: 0 <= k < |intermediates| ==> '\U{20}' <= intermediates[k] <= '\U{2f}'
    requires if intermediates == "" then EndsAtOnce(final) else '\U{30}' <= final <= '\U{7e}'
    ensures Finishes(['\U{1b}'] + (intermediates + [final]))
  {
    var tail := intermediates + [final];
    Dropped(Ground, ESC, tail);
    if intermediates == "" {
      assert tail == [final] + "";
      Dropped(Escape, final, "");
    } else {
      var rest := intermediates[1..] + [final];
      assert tail == [intermediates[0]] + rest;
      IntermediatesEnd(intermediates[1..], final);
      Dropped(Escape, intermediates[0], rest);
    }
  }

  lemma {:induction false} IntermediatesEnd(intermediates: string, final: char)
    requires forall k :: 0 <= k < |intermediates| ==> IsIntermediate(intermediates[k])
    requires IsEscapeFinal(final)
    ensures Run(Intermediates, intermediates + [final]) == "" && EndMode(Intermediates, intermediates + [final]) == Ground
  {
    if intermediates == "" {
      assert intermediates + [final] == [final] && [final][1..] == "";
    } else {
      assert (intermediates + [final])[1..] == intermediates[1..] + [final];
      IntermediatesEnd(intermediates[1..], final);
    }
  }

  /** Intermediates without a final behind them are dropped alone: the character that is none goes on as text. */
  lemma {:induction false} NoFinalNothingTaken(intermediates: string, next: char, rest: string)
    requires intermediates != "" && forall k :: 0 <= k < |intermediates| ==> '\U{20}' <= intermediates[k] <= '\U{2f}'
    requires !('\U{20}' <= next <= '\U{7e}')
    ensures Run(Ground, ['\U{1b}'] + (intermediates + ([next] + rest))) == Run(Ground, [next] + rest)
  {
    Dropped(Ground, ESC, intermediates + ([next] + rest));
    StillIntermediate(Escape, intermediates, [next] + rest);
    NoMoreIntermediates([next] + rest);
  }

  lemma {:induction false} StillIntermediate(mode: Mode, intermediates: string, rest: string)
    requires mode == Escape || mode == Intermediates
    requires intermediates != "" && forall k :: 0 <= k < |intermediates| ==> '\U{20}' <= intermediates[k] <= '\U{2f}'
    ensures Run(mode, intermediates + rest) == Run(Intermediates, rest)
    decreases |intermediates|
  {
    var tail := intermediates[1..];
    assert intermediates + rest == [intermediates[0]] + (tail + rest);
    Dropped(mode, intermediates[0], tail + rest);
    if tail == "" { assert tail + rest == rest; } else { StillIntermediate(Intermediates, tail, rest); }
  }

  /** Cut off by the end of the text, a control sequence is dropped to the end. */
  lemma {:induction false} ControlSequencesCutOff(body: string)
    requires forall k :: 0 <= k < |body| ==> body[k] != '\U{1b}' && !('\U{40}' <= body[k] <= '\U{7e}')
    ensures Run(Ground, ['\U{9b}'] + body) == "" && Run(Ground, ['\U{1b}'] + (['['] + body)) == ""
  {
    Dropped(Ground, CSI, body);
    Dropped(Ground, ESC, ['['] + body);
    Dropped(Escape, '[', body);
    CutOffInside(ControlSequence, body);
    hide Run;
  }

  /** And so is a control string. */
  lemma {:induction false} ControlStringsCutOff(opener: char, body: string)
    requires opener in {']', 'P', 'X', '^', '_'} && EndsNoString(body)
    ensures Run(Ground, ['\U{9d}'] + body) == "" && Run(Ground, ['\U{1b}'] + ([opener] + body)) == ""
  {
    Dropped(Ground, OSC, body);
    Dropped(Ground, ESC, [opener] + body);
    Dropped(Escape, opener, body);
    CutOffInside(ControlString, body);
    hide Run;
  }

  /** And an escape sequence without its final. */
  lemma {:induction false} EscapeSequencesCutOff(intermediates: string)
    requires forall k :: 0 <= k < |intermediates| ==> '\U{20}' <= intermediates[k] <= '\U{2f}'
    ensures Run(Ground, ['\U{1b}'] + intermediates) == ""
  {
    Dropped(Ground, ESC, intermediates);
    if intermediates != "" {
      StillIntermediate(Escape, intermediates, "");
      assert intermediates + "" == intermediates;
    }
  }

  lemma {:induction false} CutOffInside(mode: Mode, body: string)
    requires mode == ControlSequence ==> forall k :: 0 <= k < |body| ==> body[k] != '\U{1b}' && !('\U{40}' <= body[k] <= '\U{7e}')
    requires mode == StringEscape && body != "" ==> body[0] != '\\'
    requires mode != ControlSequence ==> (mode == ControlString || mode == StringEscape) && EndsNoString(body)
    ensures Run(mode, body) == ""
    decreases |body|
  {
    if body != "" {
      assert body == [body[0]] + body[1..];
      Dropped(mode, body[0], body[1..]);
      CutOffInside(if mode == ControlSequence then ControlSequence else if body[0] == '\U{1b}' then StringEscape else ControlString, body[1..]);
    }
  }

  // ----- an ESC in the middle of something

  predicate InAString(mode: Mode) { mode == ControlString || mode == StringEscape }

  /** From here, an ESC begins the next sequence just as it would in text, whatever comes behind it. */
  ghost predicate EscStartsOver(mode: Mode) {
    forall rest :: Run(mode, [ESC] + rest) == Run(Ground, [ESC] + rest)
  }

  /** An ESC ends what it stands in and starts over, except exactly inside a control string. */
  lemma {:induction false} EscStartsOverExactlyOutsideStrings(mode: Mode)
    ensures EscStartsOver(mode) <==> !InAString(mode)
  {
    forall rest ensures Run(Ground, [ESC] + rest) == Run(Escape, rest)
                        && Run(mode, [ESC] + rest) == Run(if InAString(mode) then StringEscape else Escape, rest)
    {
      RunOne(Ground, ESC, rest);
      RunOne(mode, ESC, rest);
    }
    if InAString(mode) {
      SwallowedOrNot();
      assert Run(mode, [ESC] + "[mx") != Run(Ground, [ESC] + "[mx");
    }
  }

  lemma {:induction false} SwallowedOrNot()
    ensures Run(StringEscape, "[mx") == "" && Run(Escape, "[mx") == "x"
  {
    assert "[mx"[1..] == "mx" && "mx"[1..] == "x" && "x"[1..] == "";
    assert Run(ControlString, "mx") == Run(ControlString, "x") == "";
    assert Run(Ground, "x") == "x";
    assert Run(ControlSequence, "mx") == Run(Ground, "x");
  }

  /** The same of a whole text: reading starts over at an ESC, whatever comes behind it, exactly when the
      text before it does not end inside a control string. */
  lemma {:induction false} EscStartsOverBehind(before: string)
    ensures (forall rest :: Run(Ground, before + ([ESC] + rest)) == Run(Ground, before) + Run(Ground, [ESC] + rest))
        <==> !InAString(EndMode(Ground, before))
  {
    var (mode, kept) := (EndMode(Ground, before), Run(Ground, before));
    EscStartsOverExactlyOutsideStrings(mode);
    forall rest ensures Run(Ground, before + ([ESC] + rest)) == kept + Run(Ground, [ESC] + rest)
                   <==> Run(mode, [ESC] + rest) == Run(Ground, [ESC] + rest)
    {
      RunConcat(Ground, before, [ESC] + rest);
      SameBehind(kept, Run(mode, [ESC] + rest), Run(Ground, [ESC] + rest));
    }
  }

  lemma {:induction false} SameBehind<T>(a: seq<T>, b: seq<T>, c: seq<T>)
    ensures a + b == a + c <==> b == c
  {
    assert (a + b)[|a|..] == b && (a + c)[|a|..] == c;
  }

  /** The input that shows it: behind an unfinished OSC, a control sequence and the text after it are lost. */
  lemma {:induction false} AnEscInsideAStringIsSwallowed()
    ensures Run(Ground, [ESC, ']'] + ([ESC] + "[mx")) == ""
    ensures Run(Ground, [ESC] + "[mx") == "x"
  {
    SwallowedOrNot();
    RunOne(Ground, ESC, "[mx");
    RunOne(ControlString, ESC, "[mx");
    assert [ESC, ']'] + ([ESC] + "[mx") == [ESC] + ([']'] + ([ESC] + "[mx"));
    RunOne(Ground, ESC, [']'] + ([ESC] + "[mx"));
    RunOne(Escape, ']', [ESC] + "[mx");
  }

  // ----- the first line of a child's output

  const HEAD_CHARS: nat := 200
  const CONTROL_PLACEHOLDER: char := '\U{fffd}'

  /** Unicode category Cc. */
  predicate IsControl(c: char) { c <= '\U{1f}' || '\U{7f}' <= c <= '\U{9f}' }

  function TrimLineEnd(text: string): string {
    if text != "" && (text[|text| - 1] == '\r' || text[|text| - 1] == '\n') then TrimLineEnd(text[..|text| - 1]) else text
  }

  /** Every CR and LF at the end comes off, and nothing before them. */
  lemma {:induction false} LineEndComesOff(body: string, end: string)
    requires forall k :: 0 <= k < |end| ==> end[k] == '\r' || end[k] == '\n'
    requires body != "" ==> body[|body| - 1] != '\r' && body[|body| - 1] != '\n'
    ensures TrimLineEnd(body + end) == body
    decreases |end|
  {
    if end == "" {
      assert body + end == body;
    } else {
      var n := |end| - 1;
      assert (body + end)[..|body| + n] == body + end[..n];
      LineEndComesOff(body, end[..n]);
    }
  }

  function Masked(text: string): (masked: string)
    ensures |masked| == |text|
    ensures forall k :: 0 <= k < |text| ==> masked[k] == if IsControl(text[k]) then CONTROL_PLACEHOLDER else text[k]
  {
    seq(|text|, k requires 0 <= k < |text| => if IsControl(text[k]) then CONTROL_PLACEHOLDER else text[k])
  }

  /** Strip, cut, then mask, in that order. */
  method CleanedHead(line: string) returns (head: string)
    ensures |head| <= 200 && forall k :: 0 <= k < |head| ==> !(head[k] <= '\U{1f}') && !('\U{7f}' <= head[k] <= '\U{9f}')
    ensures var stripped := Run(Ground, TrimLineEnd(line));
            && (|head| == |stripped| || |head| == 200 < |stripped|)
            && forall k :: 0 <= k < |head| ==>
                 var c := stripped[k];
                 head[k] == if c <= '\U{1f}' || '\U{7f}' <= c <= '\U{9f}' then '\U{fffd}' else c
  {
    var kept := StripEscapeSequences(TrimLineEnd(line));
    var cut := if |kept| <= HEAD_CHARS then kept else kept[..HEAD_CHARS];
    head := Masked(cut);
  }
}
