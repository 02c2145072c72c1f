/** The ANSI colour decoder (ansi.py): a character-level state machine that
    splits text carrying ECMA-48 control sequences into text chunks and
    colour maps. It understands SGR colour codes (section 8.3.117 of
    ECMA-48), RIS (`ESC c`) and the string commands that ST ends. */
module Ansi {
  import opened Wrappers
  import Seqs
  import Strings

  const ESC: char := 27 as char

  /** ST, the string terminator: ESC followed by a backslash. */
  const ST: string := [ESC, '\\']

  /** The two keys a colour map can hold. */
  datatype Attr = Fg | Bg

  /** A colour map as Python's dict holds it: entries in insertion order,
      which is the order the XML log writes them in. */
  type ColorMap = seq<(Attr, int)>

  /** One element of the decoded line: a run of text, or the colours that
      hold from here until the next map. */
  datatype Chunk = Text(text: string) | Colors(colors: ColorMap)

  datatype Mode = TextMode | Escape | Csi | StringCommand

  /** The three ways decoding fails. The first three are `ANSIParsingError`;
      `NotAnInteger` is the `ValueError` that `int()` raises on a parameter
      that is not a number. */
  datatype AnsiError =
    | UnboundedCsi
    | UnsupportedSeparator
    | Xterm256Unsupported
    | NotAnInteger(code: string)

  predicate IsParsingError(e: AnsiError)
  {
    !e.NotAnInteger?
  }

  // ---------------------------------------------------------------------
  // Colour maps
  // ---------------------------------------------------------------------

  function Lookup(m: ColorMap, a: Attr): Option<int>
  {
    if m == [] then None
    else if m[0].0 == a then Some(m[0].1)
    else Lookup(m[1..], a)
  }

  /** `m[a] = v`: an existing key keeps its place, a new one goes last. */
  function Put(m: ColorMap, a: Attr, v: int): (r: ColorMap)
    ensures Lookup(r, a) == Some(v)
    ensures forall b :: b != a ==> Lookup(r, b) == Lookup(m, b)
    ensures Lookup(m, a).None? ==> r == m + [(a, v)]
    ensures Lookup(m, a).Some? ==> |r| == |m|
  {
    if m == [] then [(a, v)]
    else if m[0].0 == a then [(a, v)] + m[1..]
    else [m[0]] + Put(m[1..], a, v)
  }

  /** `del m[a]` when `a` is present; nothing otherwise. */
  function Delete(m: ColorMap, a: Attr): (r: ColorMap)
    ensures Lookup(r, a) == None
    ensures forall b :: b != a ==> Lookup(r, b) == Lookup(m, b)
    ensures |r| <= |m|
    ensures forall i :: 0 <= i < |r| ==> r[i] in m
  {
    if m == [] then []
    else if m[0].0 == a then Delete(m[1..], a)
    else [m[0]] + Delete(m[1..], a)
  }

  /** Python's `==` on the two dicts: the same value under every key,
      whatever the insertion order. */
  predicate SameColors(m1: ColorMap, m2: ColorMap)
  {
    Lookup(m1, Fg) == Lookup(m2, Fg) && Lookup(m1, Bg) == Lookup(m2, Bg)
  }

  /** A map the decoder can produce: each key once, every colour one of the
      sixteen standard ones. */
  predicate ValidMap(m: ColorMap)
  {
    && (forall i, j :: 0 <= i < j < |m| ==> m[i].0 != m[j].0)
    && (forall i :: 0 <= i < |m| ==> 0 <= m[i].1 <= 15)
  }

  // ---------------------------------------------------------------------
  // SGR parameters
  // ---------------------------------------------------------------------

  /** One numeric SGR parameter applied to the colours so far. */
  function ApplyCode(m: ColorMap, code: int): Result<ColorMap, AnsiError>
  {
    if 30 <= code <= 37 then Success(Put(m, Fg, code - 30))
    else if 40 <= code <= 47 then Success(Put(m, Bg, code - 40))
    else if 90 <= code <= 97 then Success(Put(m, Fg, code - 90 + 8))
    else if 100 <= code <= 107 then Success(Put(m, Bg, code - 100 + 8))
    else if code == 38 || code == 48 then Failure(Xterm256Unsupported)
    else if code == 0 then Success(Delete(Delete(m, Fg), Bg))
    else Success(m)
  }

  /** The `;`-separated parameters applied left to right; the first one that
      `int()` refuses, or that asks for an xterm-256 colour, stops it. */
  function ApplyCodes(m: ColorMap, codes: seq<string>): Result<ColorMap, AnsiError>
    decreases |codes|
  {
    if codes == [] then Success(m)
    else match Strings.ParseInt(codes[0])
      case None => Failure(NotAnInteger(codes[0]))
      case Some(n) =>
        match ApplyCode(m, n)
        case Failure(e) => Failure(e)
        case Success(m1) => ApplyCodes(m1, codes[1..])
  }

  lemma ApplyCodesCons(m: ColorMap, codes: seq<string>)
    requires codes != []
    ensures ApplyCodes(m, codes)
         == match Strings.ParseInt(codes[0])
            case None => Failure(NotAnInteger(codes[0]))
            case Some(n) =>
              match ApplyCode(m, n)
              case Failure(e) => Failure(e)
              case Success(m1) => ApplyCodes(m1, codes[1..])
  {
  }

  lemma ApplyCodeCases(m: ColorMap, code: int)
    ensures 30 <= code <= 37 ==> ApplyCode(m, code) == Success(Put(m, Fg, code - 30))
    ensures 40 <= code <= 47 ==> ApplyCode(m, code) == Success(Put(m, Bg, code - 40))
    ensures 90 <= code <= 97 ==> ApplyCode(m, code) == Success(Put(m, Fg, code - 90 + 8))
    ensures 100 <= code <= 107 ==> ApplyCode(m, code) == Success(Put(m, Bg, code - 100 + 8))
    ensures code == 38 || code == 48 ==> ApplyCode(m, code) == Failure(Xterm256Unsupported)
    ensures code == 0 ==> ApplyCode(m, code) == Success(Delete(Delete(m, Fg), Bg))
    ensures !(30 <= code <= 37 || 40 <= code <= 47 || 90 <= code <= 97 || 100 <= code <= 107
              || code == 38 || code == 48 || code == 0)
            ==> ApplyCode(m, code) == Success(m)
  {
  }

  /** The loop over the parameters of one CSI sequence. */
  method ApplySgr(last: ColorMap, codes: seq<string>) returns (r: Result<ColorMap, AnsiError>)
    ensures r == ApplyCodes(last, codes)
  {
    var colors := last;
    for i := 0 to |codes|
      invariant ApplyCodes(last, codes) == ApplyCodes(colors, codes[i..])
    {
      hide *;
      ApplyCodesCons(colors, codes[i..]);
      assert codes[i..][0] == codes[i] && codes[i..][1..] == codes[i + 1..];
      ghost var prev := colors;
      var parsed := Strings.ParseInt(codes[i]);
      if parsed.None? {
        return Failure(NotAnInteger(codes[i]));
      }
      var code := parsed.value;
      ApplyCodeCases(prev, code);
      if 30 <= code <= 37 {
        colors := Put(colors, Fg, code - 30);
        assert ApplyCode(prev, code) == Success(colors);
      } else if 40 <= code <= 47 {
        colors := Put(colors, Bg, code - 40);
        assert ApplyCode(prev, code) == Success(colors);
      } else if 90 <= code <= 97 {
        colors := Put(colors, Fg, code - 90 + 8);
        assert ApplyCode(prev, code) == Success(colors);
      } else if 100 <= code <= 107 {
        colors := Put(colors, Bg, code - 100 + 8);
        assert ApplyCode(prev, code) == Success(colors);
      } else if code == 38 || code == 48 {
        return Failure(Xterm256Unsupported);
      } else if code == 0 {
        colors := Delete(colors, Fg);
        colors := Delete(colors, Bg);
        assert ApplyCode(prev, code) == Success(colors);
      } else {
        assert ApplyCode(prev, code) == Success(colors);
      }
    }
    assert codes[|codes|..] == [];
    return Success(colors);
  }

  // ---------------------------------------------------------------------
  // The state machine
  // ---------------------------------------------------------------------

  /** Everything the decoding loop carries from one character to the next
      besides the cursor: its mode, the chunks so far and the colours last
      recorded. */
  datatype State = State(mode: Mode, acc: seq<Chunk>, last: ColorMap)

  const Start := State(TextMode, [], [])

  /** `accumulate_text`: text joins a text chunk at the end, or starts one. */
  function Accumulate(acc: seq<Chunk>, s: string): seq<Chunk>
  {
    if |acc| == 0 || !acc[|acc| - 1].Text? then acc + [Text(s)]
    else acc[..|acc| - 1] + [Text(acc[|acc| - 1].text + s)]
  }

  /** The chunks before the last are kept; the text ends up in a final text
      chunk, after whatever text already ended the output. */
  lemma AccumulateJoins(acc: seq<Chunk>, s: string)
    ensures var r := Accumulate(acc, s);
      && |r| > 0 && r[|r| - 1].Text?
      && (if |acc| > 0 && acc[|acc| - 1].Text?
          then |r| == |acc| && r[..|acc| - 1] == acc[..|acc| - 1] && r[|r| - 1].text == acc[|acc| - 1].text + s
          else r == acc + [Text(s)])
  {
  }

  /** The new colours of a CSI sequence are recorded only when they differ
      from the last recorded ones, replacing a map that ends the output and
      appended otherwise. */
  function Record(acc: seq<Chunk>, last: ColorMap, colors: ColorMap): (seq<Chunk>, ColorMap)
  {
    if SameColors(colors, last) then (acc, last)
    else if |acc| >= 1 && acc[|acc| - 1].Colors? then (acc[..|acc| - 1] + [Colors(colors)], colors)
    else (acc + [Colors(colors)], colors)
  }

  /** Colours equal to the last recorded ones leave everything as it was;
      other colours become the last recorded ones and end the output, either
      overwriting a map that ended it or appended after text. */
  lemma RecordOnlyChanges(acc: seq<Chunk>, last: ColorMap, colors: ColorMap)
    ensures var r := Record(acc, last, colors);
      && (SameColors(colors, last) <==> r == (acc, last))
      && (!SameColors(colors, last) ==>
        && r.1 == colors
        && |r.0| > 0 && r.0[|r.0| - 1] == Colors(colors)
        && (if |acc| > 0 && acc[|acc| - 1].Colors?
            then |r.0| == |acc| && r.0[..|acc| - 1] == acc[..|acc| - 1]
            else |r.0| == |acc| + 1 && r.0[..|acc|] == acc))
  {
  }

  predicate IsStringIntroducer(c: char)
  {
    c == 'X' || c == '_' || c == '^' || c == ']' || c == 'P'
  }

  /** One turn of the decoding loop, from the character at `cursor`: the new
      cursor and state, or the error raised. It always moves forward. */
  function Step(text: string, cursor: nat, s: State): (r: Result<(nat, State), AnsiError>)
    requires cursor < |text|
    ensures r.Success? ==> cursor < r.value.0 <= |text|
  {
    match s.mode
    case TextMode => Success(TextStep(text[cursor], cursor, s))
    case Escape => Success(EscapeStep(text[cursor], cursor, s))
    case StringCommand => Success((StringCommandEnd(text, cursor), s))
    case Csi => CsiStep(text, cursor, s)
  }

  function TextStep(ch: char, cursor: nat, s: State): (nat, State)
  {
    if ch == ESC then (cursor + 1, s.(mode := Escape))
    else (cursor + 1, s.(acc := Accumulate(s.acc, [ch])))
  }

  function EscapeStep(ch: char, cursor: nat, s: State): (nat, State)
  {
    if ch == '[' then (cursor + 1, s.(mode := Csi))
    else if ch == 'c' then (cursor + 1, s.(mode := TextMode, acc := s.acc + [Colors([])]))
    else if IsStringIntroducer(ch) then (cursor + 1, s.(mode := StringCommand))
    else (cursor + 1, s.(mode := TextMode))
  }

  /** `text[cursor:].find(p) + cursor`: the index of the next `p` from
      `cursor` on, and `cursor - 1` when there is none. */
  function FindFrom(text: string, cursor: nat, p: string): (e: int)
    requires cursor <= |text|
    ensures cursor - 1 <= e
    ensures e >= cursor ==> e + |p| <= |text|
  {
    Strings.Find(text[cursor..], p) + cursor
  }

  /** The index found holds `p`; when none is found, `p` does not occur from
      `cursor` on. */
  lemma FindFromMeaning(text: string, cursor: nat, p: string)
    requires cursor <= |text|
    ensures var e := FindFrom(text, cursor, p);
      && (e >= cursor ==> text[e..e + |p|] == p)
      && (e < cursor <==> !Strings.Occurs(text[cursor..], p))
  {
    var k := Strings.Find(text[cursor..], p);
    Strings.FindMeaning(text[cursor..], p);
    assert k >= 0 ==> text[cursor..][k..k + |p|] == text[cursor + k..cursor + k + |p|];
  }

  /** Python's `text[i:j]` for `0 <= j`: empty when `j` lies before `i`. */
  function Slice(text: string, i: nat, j: int): (r: string)
    requires i <= |text| && 0 <= j <= |text|
  {
    if i <= j then text[i..j] else []
  }

  /** Where a string command's skipping resumes: just past the next ST. */
  function StringCommandEnd(text: string, cursor: nat): (next: nat)
    requires cursor < |text|
    ensures cursor < next <= |text|
  {
    var e := FindFrom(text, cursor, ST);
    if e == -1 then |text| else e + 2
  }

  /** A CSI sequence: its parameters run up to the next `m`, and the loop
      resumes just past it. */
  function CsiStep(text: string, cursor: nat, s: State): (r: Result<(nat, State), AnsiError>)
    requires cursor < |text|
    ensures r.Success? ==> cursor < r.value.0 <= |text|
  {
    var e := FindFrom(text, cursor, "m");
    if e == -1 then Failure(UnboundedCsi)
    else
      match CsiParameters(s, Slice(text, cursor, e))
      case Failure(err) => Failure(err)
      case Success(s1) => Success((e + 1, s1))
  }

  /** The parameters of a CSI sequence applied to the last recorded colours;
      the new colours are recorded and the decoder returns to text. */
  function CsiParameters(s: State, codes: string): Result<State, AnsiError>
  {
    if ':' in codes then Failure(UnsupportedSeparator)
    else
      match ApplyCodes(s.last, Strings.SplitOn(codes, ";"))
      case Failure(err) => Failure(err)
      case Success(colors) =>
        var (acc1, last1) := Record(s.acc, s.last, colors);
        Success(State(TextMode, acc1, last1))
  }

  /** `int('')` fails, so a CSI sequence with no parameters is refused. */
  lemma EmptyParametersRefused(m: ColorMap, codes: string)
    ensures codes == [] ==> ApplyCodes(m, Strings.SplitOn(codes, ";")) == Failure(NotAnInteger([]))
  {
    if codes == [] {
      assert Strings.SplitOn(codes, ";") == [[]];
      assert Strings.ParseInt([]).None?;
    }
  }

  /** The decoding loop from `cursor` to the end of the text. */
  function Run(text: string, cursor: nat, s: State): Result<seq<Chunk>, AnsiError>
    requires cursor <= |text|
    decreases |text| - cursor
  {
    if cursor == |text| then Success(s.acc)
    else match Step(text, cursor, s)
      case Failure(e) => Failure(e)
      case Success((next, s1)) => Run(text, next, s1)
  }

  /** `parse_ANSI(text)`. */
  function Parse(text: string): Result<seq<Chunk>, AnsiError>
  {
    Run(text, 0, Start)
  }

  /** The decoder as the source writes it: one loop over the characters,
      updating the mode, the chunks and the last colours in place. */
  method ParseAnsi(text: string) returns (r: Result<seq<Chunk>, AnsiError>)
    ensures r == Parse(text)
  {
    hide Run, Step, TextStep, CsiStep, CsiParameters, ApplyCodes, Accumulate, FindFrom;
    var mode := TextMode;
    var acc: seq<Chunk> := [];
    var last: ColorMap := [];
    var cursor := 0;
    while cursor < |text|
      invariant cursor <= |text|
      invariant Run(text, cursor, State(mode, acc, last)) == Parse(text)
      decreases |text| - cursor
    {
      ghost var before := State(mode, acc, last);
      ghost var from := cursor;
      var ch := text[cursor];
      if mode == TextMode {
        TextContinues(text, from, before);
        if ch == ESC {
          mode := Escape;
        } else {
          acc := Accumulate(acc, [ch]);
        }
        cursor := cursor + 1;
      } else if mode == Escape {
        EscapeContinues(text, from, before);
        if ch == '[' {
          mode := Csi;
        } else if ch == 'c' {
          acc := acc + [Colors([])];
          mode := TextMode;
        } else if IsStringIntroducer(ch) {
          mode := StringCommand;
        } else {
          mode := TextMode;
        }
        cursor := cursor + 1;
      } else if mode == StringCommand {
        StringCommandContinues(text, from, before);
        var e := FindFrom(text, cursor, ST);
        if e == -1 {
          cursor := |text|;
        } else {
          cursor := e + 2;
        }
      } else {
        CsiOutcome(text, from, before);
        var e := FindFrom(text, cursor, "m");
        if e == -1 {
          return Failure(UnboundedCsi);
        }
        var codes := Slice(text, cursor, e);
        if ':' in codes {
          return Failure(UnsupportedSeparator);
        }
        var colors := ApplySgr(last, Strings.SplitOn(codes, ";"));
        if colors.Failure? {
          return Failure(colors.error);
        }
        EmptyParametersRefused(last, codes);
        if !SameColors(colors.value, last) {
          last := colors.value;
          if |acc| >= 1 && acc[|acc| - 1].Colors? {
            acc := acc[..|acc| - 1] + [Colors(colors.value)];
          } else {
            acc := acc + [Colors(colors.value)];
          }
        }
        assert (acc, last) == Record(before.acc, before.last, colors.value);
        cursor := e + 1;
        mode := TextMode;
      }
    }
    RunAtEnd(text, State(mode, acc, last));
    return Success(acc);
  }

  // ---------------------------------------------------------------------
  // Properties of the colour maps
  // ---------------------------------------------------------------------

  lemma PutValid(m: ColorMap, a: Attr, v: int)
    requires ValidMap(m) && 0 <= v <= 15
    ensures ValidMap(Put(m, a, v))
  {
    if Lookup(m, a).Some? {
      PutExistingValid(m, a, v);
    } else {
      PutNewValid(m, a, v);
    }
  }

  /** Updating an existing key keeps the map valid. */
  lemma PutExistingValid(m: ColorMap, a: Attr, v: int)
    requires ValidMap(m) && 0 <= v <= 15 && Lookup(m, a).Some?
    ensures ValidMap(Put(m, a, v))
  {
    PutKeys(m, a, v);
    var r := Put(m, a, v);
    assert forall i :: 0 <= i < |r| ==> r[i].0 == m[i].0;
  }

  /** Adding a new key at the end keeps the map valid. */
  lemma PutNewValid(m: ColorMap, a: Attr, v: int)
    requires ValidMap(m) && 0 <= v <= 15 && Lookup(m, a).None?
    ensures ValidMap(Put(m, a, v))
  {
    LookupAbsent(m, a);
    AppendValid(m, a, v);
  }

  /** A key not yet in the map may be added at its end. */
  lemma AppendValid(m: ColorMap, a: Attr, v: int)
    requires ValidMap(m) && 0 <= v <= 15
    requires forall i :: 0 <= i < |m| ==> m[i].0 != a
    ensures ValidMap(m + [(a, v)])
  {
    var r := m + [(a, v)];
    forall i, j | 0 <= i < j < |r|
      ensures r[i].0 != r[j].0
    {
      assert r[i] == m[i];
      if j < |m| {
        assert r[j] == m[j];
      }
    }
  }

  /** A key `Lookup` does not find is not in the map. */
  lemma {:induction false} LookupAbsent(m: ColorMap, a: Attr)
    requires Lookup(m, a).None?
    ensures forall i :: 0 <= i < |m| ==> m[i].0 != a
  {
    if m != [] {
      LookupAbsent(m[1..], a);
    }
  }

  /** Updating an existing key leaves every key where it was and changes
      only that key's value. */
  lemma {:induction false} PutKeys(m: ColorMap, a: Attr, v: int)
    requires Lookup(m, a).Some?
    ensures |Put(m, a, v)| == |m|
    ensures forall j :: 0 <= j < |m| ==> Put(m, a, v)[j].0 == m[j].0
    ensures forall j :: 0 <= j < |m| ==> Put(m, a, v)[j] == m[j] || Put(m, a, v)[j] == (a, v)
  {
    if m[0].0 != a {
      PutKeys(m[1..], a, v);
    }
  }

  lemma {:induction false} DeleteValid(m: ColorMap, a: Attr)
    requires ValidMap(m)
    ensures ValidMap(Delete(m, a))
  {
    if m != [] {
      DeleteValid(m[1..], a);
    }
  }

  /** Every colour the decoder records is one of the sixteen standard ones,
      and no key appears twice: codes 30-37 and 40-47 give 0..7, codes 90-97
      and 100-107 give 8..15. */
  lemma {:induction false} ApplyCodesValid(m: ColorMap, codes: seq<string>)
    requires ValidMap(m)
    ensures ApplyCodes(m, codes).Success? ==> ValidMap(ApplyCodes(m, codes).value)
    decreases |codes|
  {
    if codes != [] && Strings.ParseInt(codes[0]).Some? {
      var n := Strings.ParseInt(codes[0]).value;
      if ApplyCode(m, n).Success? {
        var m1 := ApplyCode(m, n).value;
        ApplyCodeValid(m, n);
        assert ApplyCodes(m, codes) == ApplyCodes(m1, codes[1..]);
        ApplyCodesValid(m1, codes[1..]);
      }
    }
  }

  /** One SGR code keeps the colour map valid. */
  lemma ApplyCodeValid(m: ColorMap, n: int)
    requires ValidMap(m) && ApplyCode(m, n).Success?
    ensures ValidMap(ApplyCode(m, n).value)
  {
    if 30 <= n <= 37 { PutValid(m, Fg, n - 30); }
    else if 40 <= n <= 47 { PutValid(m, Bg, n - 40); }
    else if 90 <= n <= 97 { PutValid(m, Fg, n - 82); }
    else if 100 <= n <= 107 { PutValid(m, Bg, n - 92); }
    else if n == 0 { DeleteValid(m, Fg); DeleteValid(Delete(m, Fg), Bg); }
  }

  /** What one parameter does to one colour: nothing (`None`), clear it
      (`Some(None)`) or set it (`Some(Some(v))`). */
  function Effect(a: Attr, code: int): Option<Option<int>>
  {
    if code == 0 then Some(None)
    else if a == Fg && 30 <= code <= 37 then Some(Some(code - 30))
    else if a == Fg && 90 <= code <= 97 then Some(Some(code - 82))
    else if a == Bg && 40 <= code <= 47 then Some(Some(code - 40))
    else if a == Bg && 100 <= code <= 107 then Some(Some(code - 92))
    else None
  }

  /** The colour a sequence of parameters leaves behind, read from the end:
      the last parameter that touches the colour decides it, and the
      starting map decides it when none does. */
  function FinalColor(m: ColorMap, a: Attr, codes: seq<int>): Option<int>
  {
    if codes == [] then Lookup(m, a)
    else match Effect(a, codes[|codes| - 1])
      case Some(e) => e
      case None => FinalColor(m, a, codes[..|codes| - 1])
  }

  lemma ApplyCodeEffect(m: ColorMap, code: int, a: Attr)
    requires ApplyCode(m, code).Success?
    ensures Lookup(ApplyCode(m, code).value, a) == match Effect(a, code) case Some(e) => e case None => Lookup(m, a)
  {
  }

  /** Applying one more parameter first is the same as starting from the map
      it produces. */
  lemma {:induction false} FinalColorCons(m: ColorMap, a: Attr, code: int, codes: seq<int>)
    requires ApplyCode(m, code).Success?
    ensures FinalColor(ApplyCode(m, code).value, a, codes) == FinalColor(m, a, [code] + codes)
    decreases |codes|
  {
    var all := [code] + codes;
    if codes == [] {
      assert all[..0] == [];
      ApplyCodeEffect(m, code, a);
    } else {
      assert all[|all| - 1] == codes[|codes| - 1];
      assert all[..|all| - 1] == [code] + codes[..|codes| - 1];
      FinalColorCons(m, a, code, codes[..|codes| - 1]);
    }
  }

  /** The SGR parameters succeed exactly when every one of them is an
      integer other than 38 and 48, and then each colour is the one the last
      parameter touching it chose. */
  lemma {:induction false} ApplyCodesMeaning(m: ColorMap, codes: seq<string>)
    ensures ApplyCodes(m, codes).Success? <==> (forall i :: 0 <= i < |codes| ==> !Refused(codes[i]))
    ensures ApplyCodes(m, codes).Success? ==>
      && Seqs.MapAll(Strings.ParseInt, codes).Success?
      && forall a :: Lookup(ApplyCodes(m, codes).value, a) == FinalColor(m, a, Seqs.MapAll(Strings.ParseInt, codes).value)
    decreases |codes|
  {
    if codes == [] {
    } else {
      var p := Strings.ParseInt(codes[0]);
      if p.Some? && ApplyCode(m, p.value).Success? {
        var m1 := ApplyCode(m, p.value).value;
        ApplyCodesMeaning(m1, codes[1..]);
        assert forall i :: 1 <= i < |codes| ==> codes[1..][i - 1] == codes[i];
        if ApplyCodes(m, codes).Success? {
          var ns := Seqs.MapAll(Strings.ParseInt, codes[1..]).value;
          assert Seqs.MapAll(Strings.ParseInt, codes).value == [p.value] + ns;
          forall a
            ensures Lookup(ApplyCodes(m, codes).value, a) == FinalColor(m, a, [p.value] + ns)
          {
            FinalColorCons(m, a, p.value, ns);
          }
        }
      } else {
        assert Refused(codes[0]);
      }
    }
  }

  /** SGR 0 as the last parameter leaves no colour at all: `fg` and `bg`
      are both removed. */
  lemma ResetClears(m: ColorMap, codes: seq<string>)
    requires ApplyCodes(m, codes).Success? && |codes| > 0
    requires Strings.ParseInt(codes[|codes| - 1]) == Some(0)
    ensures ApplyCodes(m, codes) == Success([])
  {
    ApplyCodesMeaning(m, codes);
    Seqs.MapAllMeaning(Strings.ParseInt, codes);
    var r := ApplyCodes(m, codes).value;
    var ns := Seqs.MapAll(Strings.ParseInt, codes).value;
    assert ns[|ns| - 1] == 0;
    assert Lookup(r, Fg) == None && Lookup(r, Bg) == None;
  }

  /** A parameter that stops the SGR loop: not an integer, or an xterm-256
      introducer. */
  predicate Refused(code: string)
  {
    match Strings.ParseInt(code)
    case None => true
    case Some(n) => n == 38 || n == 48
  }

  /** The loop stops at the first refused parameter and reports why. */
  lemma {:induction false} ApplyCodesFailure(m: ColorMap, codes: seq<string>, k: nat)
    requires k < |codes| && Refused(codes[k])
    requires forall i :: 0 <= i < k ==> !Refused(codes[i])
    ensures ApplyCodes(m, codes) ==
      if Strings.ParseInt(codes[k]).None? then Failure(NotAnInteger(codes[k])) else Failure(Xterm256Unsupported)
    decreases k
  {
    if k > 0 {
      var m1 := ApplyCode(m, Strings.ParseInt(codes[0]).value).value;
      assert codes[1..][k - 1] == codes[k];
      ApplyCodesFailure(m1, codes[1..], k - 1);
    }
  }

  // ---------------------------------------------------------------------
  // Properties of the decoder
  // ---------------------------------------------------------------------

  /** The shape of every decoded line: text chunks are never empty and never
      adjacent (`accumulate_text` joins them), and every colour map is valid. */
  predicate WellFormed(acc: seq<Chunk>)
  {
    && (forall i :: 0 <= i < |acc| && acc[i].Text? ==> acc[i].text != [])
    && (forall i :: 0 <= i < |acc| && acc[i].Colors? ==> ValidMap(acc[i].colors))
    && (forall i :: 0 <= i < |acc| - 1 ==> !(acc[i].Text? && acc[i + 1].Text?))
  }

  predicate Consistent(s: State)
  {
    WellFormed(s.acc) && ValidMap(s.last)
  }

  lemma AccumulateWellFormed(acc: seq<Chunk>, t: string)
    requires WellFormed(acc) && t != []
    ensures WellFormed(Accumulate(acc, t))
  {
  }

  lemma AppendColorsWellFormed(acc: seq<Chunk>, m: ColorMap)
    requires WellFormed(acc) && ValidMap(m)
    ensures WellFormed(acc + [Colors(m)])
    ensures |acc| > 0 ==> WellFormed(acc[..|acc| - 1] + [Colors(m)])
  {
  }

  lemma StepConsistent(text: string, cursor: nat, s: State)
    requires cursor < |text| && Consistent(s)
    ensures Step(text, cursor, s).Success? ==> Consistent(Step(text, cursor, s).value.1)
  {
    match s.mode
    case TextMode =>
      if text[cursor] != ESC {
        AccumulateWellFormed(s.acc, [text[cursor]]);
      }
    case Escape =>
      AppendColorsWellFormed(s.acc, []);
    case StringCommand =>
    case Csi =>
      var e := FindFrom(text, cursor, "m");
      if e != -1 {
        CsiParametersConsistent(s, Slice(text, cursor, e));
      }
  }

  /** The colours a CSI sequence records are valid. */
  lemma CsiParametersConsistent(s: State, codes: string)
    requires Consistent(s)
    ensures CsiParameters(s, codes).Success? ==> Consistent(CsiParameters(s, codes).value)
  {
    ApplyCodesValid(s.last, Strings.SplitOn(codes, ";"));
    var r := ApplyCodes(s.last, Strings.SplitOn(codes, ";"));
    if ':' !in codes && r.Success? {
      AppendColorsWellFormed(s.acc, r.value);
    }
  }

  lemma {:induction false} RunWellFormed(text: string, cursor: nat, s: State)
    requires cursor <= |text| && Consistent(s)
    ensures Run(text, cursor, s).Success? ==> WellFormed(Run(text, cursor, s).value)
    decreases |text| - cursor
  {
    if cursor < |text| {
      StepConsistent(text, cursor, s);
      if Step(text, cursor, s).Success? {
        var (next, s1) := Step(text, cursor, s).value;
        RunWellFormed(text, next, s1);
      }
    }
  }

  /** Whatever `parse_ANSI` returns has no two adjacent text chunks, no empty
      text chunk, and only colour values 0..15, each key at most once. */
  lemma ParseWellFormed(text: string)
    ensures Parse(text).Success? ==> WellFormed(Parse(text).value)
  {
    RunWellFormed(text, 0, Start);
  }

  /** Text added in two pieces joins up as if added at once. */
  lemma AccumulateTwice(acc: seq<Chunk>, a: string, b: string)
    requires a != [] && b != []
    ensures Accumulate(Accumulate(acc, a), b) == Accumulate(acc, a + b)
  {
    var r := Accumulate(acc, a);
    if |acc| > 0 && acc[|acc| - 1].Text? {
      assert r[..|r| - 1] == acc[..|acc| - 1];
      assert acc[|acc| - 1].text + a + b == acc[|acc| - 1].text + (a + b);
    } else {
      assert r[..|r| - 1] == acc;
    }
  }

  lemma {:induction false} RunPlain(text: string, cursor: nat, acc: seq<Chunk>, last: ColorMap)
    requires cursor <= |text| && ESC !in text[cursor..]
    ensures Run(text, cursor, State(TextMode, acc, last)) ==
      Success(if cursor == |text| then acc else Accumulate(acc, text[cursor..]))
    decreases |text| - cursor
  {
    if cursor < |text| {
      var ch := text[cursor];
      assert ch == text[cursor..][0];
      var acc1 := Accumulate(acc, [ch]);
      assert text[cursor + 1..] == text[cursor..][1..];
      RunPlain(text, cursor + 1, acc1, last);
      if cursor + 1 < |text| {
        AccumulateTwice(acc, [ch], text[cursor + 1..]);
        assert [ch] + text[cursor + 1..] == text[cursor..];
      } else {
        assert text[cursor..] == [ch];
      }
    }
  }

  /** Text without an escape character is one text chunk, or nothing at all
      when it is empty. */
  lemma ParsePlain(text: string)
    requires ESC !in text
    ensures Parse(text) == Success(if text == [] then [] else [Text(text)])
  {
    assert text[0..] == text;
    RunPlain(text, 0, [], []);
    if text != [] {
      assert Accumulate([], text) == [] + [Text(text)] == [Text(text)];
    }
  }

  /** Once a string command has begun (`ESC X`, `ESC _`, `ESC ^`, `ESC ]` or
      `ESC P`), the decoder never returns to text: the rest of the input
      adds nothing and cannot fail. */
  lemma {:induction false} StringCommandAbsorbs(text: string, cursor: nat, s: State)
    requires cursor <= |text| && s.mode == StringCommand
    ensures Run(text, cursor, s) == Success(s.acc)
    decreases |text| - cursor
  {
    if cursor < |text| {
      StringCommandAbsorbs(text, StringCommandEnd(text, cursor), s);
    }
  }

  /** A CSI sequence with no `m` after it fails in `int('')`: the search for
      `m` comes back as `cursor - 1`, never as the `-1` the source tests for,
      and the parameters are then the empty string. */
  lemma CsiWithoutTerminator(text: string, cursor: nat, s: State)
    requires s.mode == Csi && 1 <= cursor < |text| && 'm' !in text[cursor..]
    ensures Run(text, cursor, s) == Failure(NotAnInteger([]))
  {
    Strings.OccursChar(text[cursor..], 'm');
    FindFromMeaning(text, cursor, "m");
    var e := FindFrom(text, cursor, "m");
    assert e == cursor - 1;
    EmptyParametersRefused(s.last, Slice(text, cursor, e));
  }

  /** A `:` among the parameters of a CSI sequence is refused. */
  lemma CsiColon(text: string, cursor: nat, s: State, j: nat)
    requires s.mode == Csi && cursor + j < |text|
    requires text[cursor + j] == 'm' && 'm' !in text[cursor..cursor + j]
    requires ':' in text[cursor..cursor + j]
    ensures Run(text, cursor, s) == Failure(UnsupportedSeparator)
  {
    hide Run, Step, CsiStep, CsiParameters, ApplyCodes, Strings.SplitOn, Strings.Find, Record;
    var t := text[cursor..];
    assert t[j..j + 1] == "m";
    Strings.FindIsFirst(t, "m", j);
    var k := Strings.Find(t, "m");
    Strings.FindMeaning(t, "m");
    assert t[k] == 'm';
    assert FindFrom(text, cursor, "m") == cursor + j;
    CsiOutcome(text, cursor, s);
    assert Slice(text, cursor, cursor + j) == text[cursor..cursor + j];
  }

  /** The decoder's work from a position depends only on the text from that
      position on; a CSI sequence must not start the text, since the source's
      `-1` test singles out position 0. */
  lemma RunShift(a: string, b: string, cursor: nat, s: State)
    requires cursor <= |b| && (s.mode == Csi ==> cursor >= 1)
    ensures Run(a + b, |a| + cursor, s) == Run(b, cursor, s)
  {
    hide *;
    assert (a + b)[|a|..] == b;
    SuffixStepsAgree(a + b, |a|, b);
    RunSuffix(a + b, |a|, b, cursor, s);
  }

  /** The step in `t` from `k + j` is the step in `b` from `j`, moved `k`
      positions on; a CSI sequence at the very start of `b` is left out. */
  ghost predicate AgreesAt(t: string, k: nat, b: string, j: nat, s: State)
  {
    |t| == k + |b| && j < |b| && s.mode != StringCommand && (s.mode == Csi ==> j >= 1) ==>
      Step(t, k + j, s) == Shifted(k, Step(b, j, s))
  }

  /** Steps in `t` from `k` on are the steps in `b`. */
  ghost predicate StepsAgree(t: string, k: nat, b: string)
  {
    |t| == k + |b| && forall j: nat, s: State :: AgreesAt(t, k, b, j, s)
  }

  lemma SuffixStepsAgree(t: string, k: nat, b: string)
    requires k <= |t| && t[k..] == b
    ensures StepsAgree(t, k, b)
  {
    forall j: nat, s: State
      ensures AgreesAt(t, k, b, j, s)
    {
      if j < |b| && s.mode != StringCommand && (s.mode == Csi ==> j >= 1) {
        StepSuffix(t, k, b, j, s);
      }
    }
  }

  /** The same for texts whose steps agree from `k` on. */
  lemma {:induction false} RunSuffix(t: string, k: nat, b: string, cursor: nat, s: State)
    requires |t| == k + |b| && StepsAgree(t, k, b)
    requires cursor <= |b| && (s.mode == Csi ==> cursor >= 1)
    ensures Run(t, k + cursor, s) == Run(b, cursor, s)
    decreases |b| - cursor
  {
    hide *;
    if cursor == |b| {
      RunAtEnd(t, s);
      RunAtEnd(b, s);
    } else if s.mode == StringCommand {
      StringCommandAbsorbs(t, k + cursor, s);
      StringCommandAbsorbs(b, cursor, s);
    } else {
      var done, e, next, s1 := StepOnSuffix(t, k, b, cursor, s);
      if done {
        RunStops(t, k + cursor, s, e);
        RunStops(b, cursor, s, e);
      } else {
        RunContinues(t, k + cursor, s, k + next, s1);
        RunContinues(b, cursor, s, next, s1);
        RunSuffix(t, k, b, next, s1);
      }
    }
  }

  lemma RunAtEnd(text: string, s: State)
    ensures Run(text, |text|, s) == Success(s.acc)
  {
  }

  /** One turn of the loop on both texts: both fail with the same error, or
      both move on to the same state at corresponding positions. */
  lemma StepOnSuffix(t: string, k: nat, b: string, cursor: nat, s: State)
    returns (done: bool, e: AnsiError, next: nat, s1: State)
    requires StepsAgree(t, k, b)
    requires cursor < |b| && s.mode != StringCommand && (s.mode == Csi ==> cursor >= 1)
    ensures k + cursor < |t|
    ensures done ==> Step(b, cursor, s) == Failure(e) && Step(t, k + cursor, s) == Failure(e)
    ensures !done ==>
      && cursor < next <= |b|
      && Step(b, cursor, s) == Success((next, s1))
      && Step(t, k + cursor, s) == Success((k + next, s1))
  {
    hide Step;
    assert AgreesAt(t, k, b, cursor, s);
    var r := Step(b, cursor, s);
    done, e, next, s1 := r.Failure?, UnboundedCsi, cursor + 1, s;
    if done {
      e := r.error;
    } else {
      next, s1 := r.value.0, r.value.1;
    }
  }

  lemma RunStops(text: string, cursor: nat, s: State, e: AnsiError)
    requires cursor < |text| && Step(text, cursor, s) == Failure(e)
    ensures Run(text, cursor, s) == Failure(e)
  {
  }

  /** One turn of the loop in text mode. */
  lemma TextContinues(text: string, cursor: nat, s: State)
    requires cursor < |text| && s.mode == TextMode
    ensures Run(text, cursor, s)
         == Run(text, cursor + 1, if text[cursor] == ESC then s.(mode := Escape)
                                  else s.(acc := Accumulate(s.acc, [text[cursor]])))
  {
  }

  /** One turn of the loop just after an ESC. */
  lemma EscapeContinues(text: string, cursor: nat, s: State)
    requires cursor < |text| && s.mode == Escape
    ensures Run(text, cursor, s) == Run(text, cursor + 1, EscapeStep(text[cursor], cursor, s).1)
  {
  }

  /** One turn of the loop inside a string command: it resumes past the
      next ST, or at the end. */
  lemma StringCommandContinues(text: string, cursor: nat, s: State)
    requires cursor < |text| && s.mode == StringCommand
    ensures var e := FindFrom(text, cursor, ST);
      Run(text, cursor, s) == Run(text, if e == -1 then |text| else e + 2, s)
  {
  }

  /** One turn of the loop on a CSI sequence: each error the source raises
      ends the run, and parameters that apply cleanly record the new colours
      and resume in text just past the `m`. */
  lemma CsiOutcome(text: string, cursor: nat, s: State)
    requires cursor < |text| && s.mode == Csi
    ensures var e := FindFrom(text, cursor, "m");
      && (e == -1 ==> Run(text, cursor, s) == Failure(UnboundedCsi))
      && (e != -1 ==>
          var codes := Slice(text, cursor, e);
          && (':' in codes ==> Run(text, cursor, s) == Failure(UnsupportedSeparator))
          && (':' !in codes ==>
              match ApplyCodes(s.last, Strings.SplitOn(codes, ";"))
              case Failure(err) => Run(text, cursor, s) == Failure(err)
              case Success(colors) =>
                var (acc1, last1) := Record(s.acc, s.last, colors);
                Run(text, cursor, s) == Run(text, e + 1, State(TextMode, acc1, last1))))
  {
    hide Run, Slice;
    assert Step(text, cursor, s) == CsiStep(text, cursor, s);
    match CsiStep(text, cursor, s)
    case Failure(err) => RunStops(text, cursor, s, err);
    case Success(p) => RunContinues(text, cursor, s, p.0, p.1);
  }

  lemma RunContinues(text: string, cursor: nat, s: State, next: nat, s1: State)
    requires cursor < |text| && Step(text, cursor, s) == Success((next, s1))
    ensures Run(text, cursor, s) == Run(text, next, s1)
  {
  }

  /** A step's outcome with its new cursor moved `k` positions on. */
  function Shifted(k: nat, r: Result<(nat, State), AnsiError>): Result<(nat, State), AnsiError>
  {
    match r
    case Failure(e) => Failure(e)
    case Success((next, s1)) => Success((k + next, s1))
  }

  /** One step in `t` from `k + cursor` is the step in its suffix `b` from
      `cursor`, moved `k` positions on. */
  lemma StepSuffix(t: string, k: nat, b: string, cursor: nat, s: State)
    requires k <= |t| && t[k..] == b
    requires cursor < |b| && s.mode != StringCommand && (s.mode == Csi ==> cursor >= 1)
    ensures Step(t, k + cursor, s) == Shifted(k, Step(b, cursor, s))
  {
    assert t[k + cursor] == b[cursor];
    if s.mode == Csi {
      CsiSuffix(t, k, b, cursor, s);
    }
  }

  lemma CsiSuffix(t: string, k: nat, b: string, cursor: nat, s: State)
    requires k <= |t| && t[k..] == b
    requires 1 <= cursor < |b|
    ensures CsiStep(t, k + cursor, s) == Shifted(k, CsiStep(b, cursor, s))
  {
    var e := FindFrom(b, cursor, "m");
    FindFromSuffix(t, k, b, cursor, "m");
    if e != -1 {
      SliceSuffix(t, k, b, cursor, e);
    }
    CsiAgrees(t, k, b, cursor, s);
  }

  /** A CSI step depends only on where the next `m` is and on the parameters
      before it. */
  lemma CsiAgrees(t: string, k: nat, b: string, cursor: nat, s: State)
    requires 1 <= cursor < |b| && k + cursor < |t|
    requires FindFrom(t, k + cursor, "m") == k + FindFrom(b, cursor, "m")
    requires FindFrom(b, cursor, "m") != -1 ==>
      k + FindFrom(b, cursor, "m") <= |t| &&
      Slice(t, k + cursor, k + FindFrom(b, cursor, "m")) == Slice(b, cursor, FindFrom(b, cursor, "m"))
    ensures CsiStep(t, k + cursor, s) == Shifted(k, CsiStep(b, cursor, s))
  {
    hide CsiParameters;
    hide FindFrom;
    hide Slice;
  }

  lemma FindFromSuffix(t: string, k: nat, b: string, cursor: nat, p: string)
    requires k <= |t| && t[k..] == b && cursor <= |b|
    ensures FindFrom(t, k + cursor, p) == k + FindFrom(b, cursor, p)
  {
    assert t[k + cursor..] == b[cursor..];
  }

  lemma SliceSuffix(t: string, k: nat, b: string, i: nat, j: int)
    requires k <= |t| && t[k..] == b && i <= |b| && 0 <= j <= |b|
    ensures k + j <= |t| && Slice(t, k + i, k + j) == Slice(b, i, j)
  {
    assert |t| == k + |b|;
    if i <= j {
      forall n | 0 <= n < j - i
        ensures t[k + i..k + j][n] == b[i..j][n]
      {
        assert b[i + n] == t[k..][i + n];
      }
      assert t[k + i..k + j] == b[i..j];
    }
  }

  /** An escape the decoder does not know (`ESC x` for any `x` other than
      `[`, `c` and the string introducers) is dropped together with `x`. */
  lemma UnknownEscapeDropped(x: char, rest: string)
    requires x != '[' && x != 'c' && !IsStringIntroducer(x)
    ensures Parse([ESC, x] + rest) == Parse(rest)
  {
    var t := [ESC, x] + rest;
    assert t[0] == ESC && t[1] == x;
    assert Run(t, 1, State(Escape, [], [])) == Run(t, 2, Start);
    RunShift([ESC, x], rest, 0, Start);
  }

  /** Two resets in a row decode to two adjacent empty maps: `ESC c`
      appends its map whatever the chunks before it are. */
  lemma ResetTwiceAdjacentMaps()
    ensures Parse([ESC, 'c', ESC, 'c']) == Success([Colors([]), Colors([])])
  {
    var t := [ESC, 'c', ESC, 'c'];
    var s1 := State(Escape, [], []);
    var s2 := State(TextMode, [Colors([])], []);
    var s3 := State(Escape, [Colors([])], []);
    var s4 := State(TextMode, [Colors([]), Colors([])], []);
    assert t[1] == 'c' && t[3] == 'c';
    assert s1.acc + [Colors([])] == s2.acc && s3.acc + [Colors([])] == s4.acc;
    RunContinues(t, 0, Start, 1, s1);
    RunContinues(t, 1, s1, 2, s2);
    RunContinues(t, 2, s2, 3, s3);
    RunContinues(t, 3, s3, 4, s4);
    RunAtEnd(t, s4);
  }

  /** `ESC c` appends an empty map and returns to text; the colours last
      recorded are kept, so the rest decodes as if it began the text with
      those colours already recorded. */
  lemma ResetAppendsEmptyMap(text: string, cursor: nat, s: State)
    requires s.mode == Escape && cursor < |text| && text[cursor] == 'c'
    ensures Run(text, cursor, s) == Run(text[cursor + 1..], 0, State(TextMode, s.acc + [Colors([])], s.last))
  {
    var s1 := State(TextMode, s.acc + [Colors([])], s.last);
    RunContinues(text, cursor, s, cursor + 1, s1);
    SuffixStepsAgree(text, cursor + 1, text[cursor + 1..]);
    RunSuffix(text, cursor + 1, text[cursor + 1..], 0, s1);
  }
}
