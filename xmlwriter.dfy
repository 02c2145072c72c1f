/** The XML writer (xmlwriter.py): escaping of text for XML content and
    single-quoted attribute values, opening tags built from a property list,
    and an outputter that writes one indented line per call while keeping a
    stack of open tags. */
module XmlWriter {
  import opened Wrappers
  import Seqs
  import Strings

  // ---------------------------------------------------------------------
  // Escaping
  // ---------------------------------------------------------------------

  /** `escape` as written: `<` and `>` are replaced before `&`, so the `&`
      of the entities they produce is escaped a second time. */
  function Escape(txt: string): string
  {
    var s1 := Strings.Replace(txt, "<", "&lt;");
    var s2 := Strings.Replace(s1, ">", "&gt;");
    var s3 := Strings.Replace(s2, "&", "&amp;");
    var s4 := Strings.Replace(s3, "\"", "&quot;");
    var s5 := Strings.Replace(s4, "'", "&apos;");
    Strings.Replace(s5, "\n", "")
  }

  /** What `escape` does to a single character. */
  function EscapeChar(c: char): string
  {
    if c == '<' then "&amp;lt;"
    else if c == '>' then "&amp;gt;"
    else if c == '&' then "&amp;"
    else if c == '"' then "&quot;"
    else if c == '\'' then "&apos;"
    else if c == '\n' then ""
    else [c]
  }

  /** The escaping the writer evidently intends: `&` first, so that each
      special character becomes exactly one entity. */
  function EscapeFixed(txt: string): string
  {
    var s1 := Strings.Replace(txt, "&", "&amp;");
    var s2 := Strings.Replace(s1, "<", "&lt;");
    var s3 := Strings.Replace(s2, ">", "&gt;");
    var s4 := Strings.Replace(s3, "\"", "&quot;");
    var s5 := Strings.Replace(s4, "'", "&apos;");
    Strings.Replace(s5, "\n", "")
  }

  function EscapeFixedChar(c: char): string
  {
    if c == '<' then "&lt;"
    else if c == '>' then "&gt;"
    else if c == '&' then "&amp;"
    else if c == '"' then "&quot;"
    else if c == '\'' then "&apos;"
    else if c == '\n' then ""
    else [c]
  }

  /** How an XML reader decodes the five predefined entities (section 4.6
      of XML 1.0); every other character stands for itself. */
  function Unescape(s: string): string
    decreases |s|
  {
    if s == [] then []
    else if "&lt;" <= s then "<" + Unescape(s[4..])
    else if "&gt;" <= s then ">" + Unescape(s[4..])
    else if "&amp;" <= s then "&" + Unescape(s[5..])
    else if "&quot;" <= s then "\"" + Unescape(s[6..])
    else if "&apos;" <= s then "'" + Unescape(s[6..])
    else [s[0]] + Unescape(s[1..])
  }

  lemma EscapeAppend(a: string, b: string)
    ensures Escape(a + b) == Escape(a) + Escape(b)
  {
    var s1a, s1b := Strings.Replace(a, "<", "&lt;"), Strings.Replace(b, "<", "&lt;");
    Strings.ReplaceCharAppend(a, b, '<', "&lt;");
    var s2a, s2b := Strings.Replace(s1a, ">", "&gt;"), Strings.Replace(s1b, ">", "&gt;");
    Strings.ReplaceCharAppend(s1a, s1b, '>', "&gt;");
    var s3a, s3b := Strings.Replace(s2a, "&", "&amp;"), Strings.Replace(s2b, "&", "&amp;");
    Strings.ReplaceCharAppend(s2a, s2b, '&', "&amp;");
    var s4a, s4b := Strings.Replace(s3a, "\"", "&quot;"), Strings.Replace(s3b, "\"", "&quot;");
    Strings.ReplaceCharAppend(s3a, s3b, '"', "&quot;");
    var s5a, s5b := Strings.Replace(s4a, "'", "&apos;"), Strings.Replace(s4b, "'", "&apos;");
    Strings.ReplaceCharAppend(s4a, s4b, '\'', "&apos;");
    Strings.ReplaceCharAppend(s5a, s5b, '\n', "");
  }

  lemma EscapeFixedAppend(a: string, b: string)
    ensures EscapeFixed(a + b) == EscapeFixed(a) + EscapeFixed(b)
  {
    var s1a, s1b := Strings.Replace(a, "&", "&amp;"), Strings.Replace(b, "&", "&amp;");
    Strings.ReplaceCharAppend(a, b, '&', "&amp;");
    var s2a, s2b := Strings.Replace(s1a, "<", "&lt;"), Strings.Replace(s1b, "<", "&lt;");
    Strings.ReplaceCharAppend(s1a, s1b, '<', "&lt;");
    var s3a, s3b := Strings.Replace(s2a, ">", "&gt;"), Strings.Replace(s2b, ">", "&gt;");
    Strings.ReplaceCharAppend(s2a, s2b, '>', "&gt;");
    var s4a, s4b := Strings.Replace(s3a, "\"", "&quot;"), Strings.Replace(s3b, "\"", "&quot;");
    Strings.ReplaceCharAppend(s3a, s3b, '"', "&quot;");
    var s5a, s5b := Strings.Replace(s4a, "'", "&apos;"), Strings.Replace(s4b, "'", "&apos;");
    Strings.ReplaceCharAppend(s4a, s4b, '\'', "&apos;");
    Strings.ReplaceCharAppend(s5a, s5b, '\n', "");
  }

  lemma EscapeSingle(x: char)
    ensures Escape([x]) == EscapeChar(x)
  {
    if x == '<' || x == '>' {
      EscapeSingleAngle(x);
    } else {
      EscapeSingleOther(x);
    }
  }

  lemma EscapeSingleAngle(x: char)
    requires x == '<' || x == '>'
    ensures Escape([x]) == EscapeChar(x)
  {
    hide Strings.Replace;
    var ent := if x == '<' then "lt;" else "gt;";
    var s1 := Strings.Replace([x], "<", "&lt;");
    Strings.ReplaceCharSingle(x, '<', "&lt;");
    var s2 := Strings.Replace(s1, ">", "&gt;");
    if x == '<' {
      Strings.ReplaceCharAbsent(s1, '>', "&gt;");
    } else {
      Strings.ReplaceCharSingle(x, '>', "&gt;");
    }
    assert s2 == "&" + ent;
    Strings.ReplaceCharAppend("&", ent, '&', "&amp;");
    Strings.ReplaceCharSingle('&', '&', "&amp;");
    Strings.ReplaceCharAbsent(ent, '&', "&amp;");
    TailUntouched("&amp;" + ent);
  }

  lemma EscapeSingleOther(x: char)
    requires x != '<' && x != '>'
    ensures Escape([x]) == EscapeChar(x)
  {
    hide Strings.Replace;
    Strings.ReplaceCharSingle(x, '<', "&lt;");
    Strings.ReplaceCharSingle(x, '>', "&gt;");
    Strings.ReplaceCharSingle(x, '&', "&amp;");
    var s3 := Strings.Replace([x], "&", "&amp;");
    if x == '&' {
      TailUntouched(s3);
    } else {
      EscapeTail(x);
    }
  }

  /** The last three replacements of both escapings, on one character. */
  lemma EscapeTail(x: char)
    ensures Strings.Replace(Strings.Replace(Strings.Replace([x], "\"", "&quot;"), "'", "&apos;"), "\n", "")
         == if x == '"' then "&quot;" else if x == '\'' then "&apos;" else if x == '\n' then "" else [x]
  {
    hide Strings.Replace;
    var s4 := Strings.Replace([x], "\"", "&quot;");
    Strings.ReplaceCharSingle(x, '"', "&quot;");
    if x == '"' {
      Strings.ReplaceCharAbsent(s4, '\'', "&apos;");
      Strings.ReplaceCharAbsent(s4, '\n', "");
    } else {
      Strings.ReplaceCharSingle(x, '\'', "&apos;");
      var s5 := Strings.Replace([x], "'", "&apos;");
      if x == '\'' {
        Strings.ReplaceCharAbsent(s5, '\n', "");
      } else {
        Strings.ReplaceCharSingle(x, '\n', "");
      }
    }
  }

  /** Text made of entities and letters passes the last three replacements
      unchanged. */
  lemma TailUntouched(s: string)
    requires '"' !in s && '\'' !in s && '\n' !in s
    ensures Strings.Replace(Strings.Replace(Strings.Replace(s, "\"", "&quot;"), "'", "&apos;"), "\n", "") == s
  {
    hide Strings.Replace;
    Strings.ReplaceCharAbsent(s, '"', "&quot;");
    Strings.ReplaceCharAbsent(s, '\'', "&apos;");
    Strings.ReplaceCharAbsent(s, '\n', "");
  }

  lemma EscapeFixedSingle(x: char)
    ensures EscapeFixed([x]) == EscapeFixedChar(x)
  {
    hide Strings.Replace;
    var s1 := Strings.Replace([x], "&", "&amp;");
    Strings.ReplaceCharSingle(x, '&', "&amp;");
    if x == '&' {
      Strings.ReplaceCharAbsent(s1, '<', "&lt;");
      Strings.ReplaceCharAbsent(s1, '>', "&gt;");
      TailUntouched(s1);
    } else {
      var s2 := Strings.Replace([x], "<", "&lt;");
      Strings.ReplaceCharSingle(x, '<', "&lt;");
      if x == '<' {
        Strings.ReplaceCharAbsent(s2, '>', "&gt;");
        TailUntouched(s2);
      } else {
        var s3 := Strings.Replace([x], ">", "&gt;");
        Strings.ReplaceCharSingle(x, '>', "&gt;");
        if x == '>' {
          TailUntouched(s3);
        } else {
          EscapeTail(x);
        }
      }
    }
  }

  lemma EscapeEmpty()
    ensures Escape([]) == [] && EscapeFixed([]) == []
  {
  }

  /** `escape` works character by character. */
  lemma {:induction false} EscapeCharwise(s: string)
    ensures Escape(s) == Strings.FlatMap(EscapeChar, s)
  {
    if s == [] {
      EscapeEmpty();
    } else {
      assert s == [s[0]] + s[1..];
      EscapeAppend([s[0]], s[1..]);
      EscapeSingle(s[0]);
      EscapeCharwise(s[1..]);
    }
  }

  lemma {:induction false} EscapeFixedCharwise(s: string)
    ensures EscapeFixed(s) == Strings.FlatMap(EscapeFixedChar, s)
  {
    if s == [] {
      EscapeEmpty();
    } else {
      assert s == [s[0]] + s[1..];
      EscapeFixedAppend([s[0]], s[1..]);
      EscapeFixedSingle(s[0]);
      EscapeFixedCharwise(s[1..]);
    }
  }

  /** `e` can sit inside a single-quoted attribute value or a text node: it
      holds no markup character, no quote and no line break. */
  predicate MarkupFree(e: string)
  {
    '<' !in e && '>' !in e && '"' !in e && '\'' !in e && '\n' !in e
  }

  lemma EscapeFixedCharSafe(c: char)
    ensures MarkupFree(EscapeFixedChar(c))
  {
  }

  lemma EscapeCharSafe(c: char)
    ensures MarkupFree(EscapeChar(c))
  {
  }

  /** Escaped text is markup-free. */
  lemma EscapeFixedSafe(s: string)
    ensures MarkupFree(EscapeFixed(s))
  {
    EscapeFixedCharwise(s);
    forall c ensures MarkupFree(EscapeFixedChar(c)) { EscapeFixedCharSafe(c); }
    hide EscapeFixed, Strings.FlatMap, EscapeFixedChar;
    Strings.FlatMapAvoids(EscapeFixedChar, s, '<');
    Strings.FlatMapAvoids(EscapeFixedChar, s, '>');
    Strings.FlatMapAvoids(EscapeFixedChar, s, '"');
    Strings.FlatMapAvoids(EscapeFixedChar, s, '\'');
    Strings.FlatMapAvoids(EscapeFixedChar, s, '\n');
  }

  /** The same holds for `escape` as written. */
  lemma EscapeSafe(s: string)
    ensures MarkupFree(Escape(s))
  {
    EscapeCharwise(s);
    forall c ensures MarkupFree(EscapeChar(c)) { EscapeCharSafe(c); }
    hide Escape, Strings.FlatMap, EscapeChar;
    Strings.FlatMapAvoids(EscapeChar, s, '<');
    Strings.FlatMapAvoids(EscapeChar, s, '>');
    Strings.FlatMapAvoids(EscapeChar, s, '"');
    Strings.FlatMapAvoids(EscapeChar, s, '\'');
    Strings.FlatMapAvoids(EscapeChar, s, '\n');
  }

  lemma UnescapeEntity(c: char, t: string)
    ensures Unescape(EscapeFixedChar(c) + t) == Seqs.Without([c], '\n') + Unescape(t)
  {
    if c == '\n' {
      assert EscapeFixedChar(c) + t == t;
    } else if c == '<' {
      UnescapeLt(t);
    } else if c == '>' {
      UnescapeGt(t);
    } else if c == '&' {
      UnescapeAmp(t);
    } else if c == '"' {
      UnescapeQuot(t);
    } else if c == '\'' {
      UnescapeApos(t);
    } else {
      UnescapePlain(c, t);
    }
  }

  lemma UnescapeLt(t: string)
    ensures Unescape("&lt;" + t) == "<" + Unescape(t)
  {
    var e := "&lt;" + t;
    assert "&lt;" <= e && e[4..] == t;
  }

  lemma UnescapeGt(t: string)
    ensures Unescape("&gt;" + t) == ">" + Unescape(t)
  {
    var e := "&gt;" + t;
    assert e[1] == 'g';
    assert !("&lt;" <= e) && "&gt;" <= e && e[4..] == t;
  }

  lemma UnescapeAmp(t: string)
    ensures Unescape("&amp;" + t) == "&" + Unescape(t)
  {
    var e := "&amp;" + t;
    assert e[1] == 'a';
    assert !("&lt;" <= e) && !("&gt;" <= e) && "&amp;" <= e && e[5..] == t;
  }

  lemma UnescapeQuot(t: string)
    ensures Unescape("&quot;" + t) == "\"" + Unescape(t)
  {
    var e := "&quot;" + t;
    assert e[1] == 'q';
    assert !("&lt;" <= e) && !("&gt;" <= e) && !("&amp;" <= e) && "&quot;" <= e && e[6..] == t;
  }

  lemma UnescapeApos(t: string)
    ensures Unescape("&apos;" + t) == "'" + Unescape(t)
  {
    var e := "&apos;" + t;
    assert e[1] == 'a' && e[2] == 'p';
    assert !("&lt;" <= e) && !("&gt;" <= e) && !("&amp;" <= e) && !("&quot;" <= e) && "&apos;" <= e && e[6..] == t;
  }

  lemma UnescapePlain(c: char, t: string)
    requires c != '&'
    ensures Unescape([c] + t) == [c] + Unescape(t)
  {
    var e := [c] + t;
    assert e[0] == c && e[1..] == t;
  }


  /** An XML reader gets back the text the writer escaped, less its line
      breaks, which the escaping drops. */
  lemma {:induction false} UnescapeEscapeFixed(s: string)
    ensures Unescape(EscapeFixed(s)) == Seqs.Without(s, '\n')
  {
    EscapeFixedCharwise(s);
    UnescapeFlatMap(s);
  }

  lemma {:induction false} UnescapeFlatMap(s: string)
    ensures Unescape(Strings.FlatMap(EscapeFixedChar, s)) == Seqs.Without(s, '\n')
  {
    if s != [] {
      UnescapeEntity(s[0], Strings.FlatMap(EscapeFixedChar, s[1..]));
      UnescapeFlatMap(s[1..]);
    }
  }

  /** With `escape` as written, a reader of the output sees `&lt;` where
      the text held `<`. */
  lemma EscapeDoubleEscapes()
    ensures Unescape(Escape("<")) == "&lt;"
    ensures Unescape(Escape("<")) != "<"
  {
    EscapeSingle('<');
    assert EscapeChar('<') == "&amp;lt;";
    UnescapeDoubleLt();
    hide Escape, Unescape;
  }

  lemma EscapeCharLt()
    ensures EscapeChar('<') == "&amp;lt;"
  {
  }

  lemma UnescapeDoubleLt()
    ensures Unescape("&amp;lt;") == "&lt;"
  {
    var e := "&amp;lt;";
    assert e[1] == 'a';
    assert !("&lt;" <= e) && !("&gt;" <= e) && "&amp;" <= e && e[5..] == "lt;";
    var t := "lt;";
    assert Unescape(t) == "lt;" by {
      assert t[1..] == "t;" && t[1..][1..] == ";";
      assert ";"[1..] == [];
    }
  }

  /** Both escapings agree on text without angle brackets. */
  lemma {:induction false} EscapeAgreesWithoutAngles(s: string)
    requires '<' !in s && '>' !in s
    ensures Escape(s) == EscapeFixed(s)
  {
    EscapeCharwise(s);
    EscapeFixedCharwise(s);
    FlatMapAgree(s);
  }

  lemma {:induction false} FlatMapAgree(s: string)
    requires '<' !in s && '>' !in s
    ensures Strings.FlatMap(EscapeChar, s) == Strings.FlatMap(EscapeFixedChar, s)
  {
    if s != [] {
      FlatMapAgree(s[1..]);
    }
  }

  // ---------------------------------------------------------------------
  // Opening tags
  // ---------------------------------------------------------------------

  /** A key or value of the property dictionary: a string, an integer, or
      anything else (which the writer refuses). */
  datatype PropValue = PText(text: string) | PNumber(number: int) | POther

  /** The dictionary's items, in insertion order. */
  type Props = seq<(PropValue, PropValue)>

  datatype XmlError = PropertiesNotStrings

  /** A property the writer accepts: a string key, and a string or
      integer value. */
  predicate Accepted(prop: (PropValue, PropValue))
  {
    prop.0.PText? && !prop.1.POther?
  }

  /** The text of an accepted value: integers go through `str`. */
  function ValueText(v: PropValue): string
    requires !v.POther?
  {
    if v.PText? then v.text else Strings.IntToString(v.number)
  }

  /** One ` key='value'` attribute, the value escaped. */
  function AttributeText(key: string, value: string): string
  {
    " " + key + "='" + Escape(value) + "'"
  }

  /** The attributes of all properties, or the refusal of the first one
      that is not accepted. */
  function Attributes(props: Props): Result<string, XmlError>
    decreases |props|
  {
    if props == [] then Success("")
    else
      var init, last := props[..|props| - 1], props[|props| - 1];
      match Attributes(init)
      case Failure(e) => Failure(e)
      case Success(a) =>
        if Accepted(last) then Success(a + AttributeText(last.0.text, ValueText(last.1)))
        else Failure(PropertiesNotStrings)
  }

  /** `tag_from_spec`: `<tag k1='v1' ...>`. */
  function OpeningTag(tag: string, props: Props): Result<string, XmlError>
  {
    match Attributes(props)
    case Failure(e) => Failure(e)
    case Success(a) => Success("<" + tag + a + ">")
  }

  method TagFromSpec(tag: string, props: Props) returns (r: Result<string, XmlError>)
    ensures r == OpeningTag(tag, props)
  {
    hide Attributes;
    AttributesEmpty();
    var acc := "<" + tag;
    var i := 0;
    while i < |props|
      invariant 0 <= i <= |props|
      invariant Attributes(props[..i]).Success?
      invariant acc == "<" + tag + Attributes(props[..i]).value
    {
      var prop := props[i];
      AttributesStep(props, i);
      if !Accepted(prop) {
        AttributesFailurePropagates(props, i + 1);
        return Failure(PropertiesNotStrings);
      }
      acc := acc + AttributeText(prop.0.text, ValueText(prop.1));
      i := i + 1;
    }
    assert props[..i] == props;
    return Success(acc + ">");
  }

  /** A refused prefix refuses the whole dictionary. */
  lemma AttributesEmpty()
    ensures Attributes([]) == Success("")
  {
  }

  /** One more property: its attribute text is appended, or it is refused. */
  lemma AttributesStep(props: Props, i: nat)
    requires i < |props| && Attributes(props[..i]).Success?
    ensures Attributes(props[..i + 1]) ==
      if Accepted(props[i]) then Success(Attributes(props[..i]).value + AttributeText(props[i].0.text, ValueText(props[i].1)))
      else Failure(PropertiesNotStrings)
  {
    assert props[..i + 1][..i] == props[..i] && props[..i + 1][i] == props[i];
  }

  lemma {:induction false} AttributesFailurePropagates(props: Props, n: nat)
    requires n <= |props| && Attributes(props[..n]) == Failure(PropertiesNotStrings)
    ensures Attributes(props) == Failure(PropertiesNotStrings)
    decreases |props| - n
  {
    if n < |props| {
      assert props[..n + 1][..n] == props[..n];
      AttributesFailurePropagates(props, n + 1);
    } else {
      assert props[..n] == props;
    }
  }

  /** The tag is built exactly when every property is accepted. */
  lemma {:induction false} OpeningTagAccepted(tag: string, props: Props)
    ensures OpeningTag(tag, props).Success? <==> forall i :: 0 <= i < |props| ==> Accepted(props[i])
    decreases |props|
  {
    if props != [] {
      var init := props[..|props| - 1];
      OpeningTagAccepted(tag, init);
      assert forall i :: 0 <= i < |init| ==> init[i] == props[i];
    }
  }

  /** Number of occurrences of `c` in `s`. */
  function Count(s: string, c: char): nat
  {
    multiset(s)[c]
  }

  /** Markup safety of a built tag: when the tag name and the keys hold no
      quote and no angle bracket, the result has exactly one `<`, one `>`,
      and two quotes per property, because every value is escaped. */
  lemma {:induction false} AttributesDelimited(props: Props)
    requires Attributes(props).Success?
    requires forall i :: 0 <= i < |props| ==> props[i].0.PText? && Plain(props[i].0.text)
    ensures var a := Attributes(props).value;
      Count(a, '\'') == 2 * |props| && Count(a, '<') == 0 && Count(a, '>') == 0
    decreases |props|
  {
    if props != [] {
      var init := props[..|props| - 1];
      var last := props[|props| - 1];
      assert Attributes(init).Success?;
      AttributesDelimited(init);
      var v := ValueText(last.1);
      EscapeSafe(v);
      assert Attributes(props).value == Attributes(init).value + AttributeText(last.0.text, v);
    }
  }

  /** No quote and no angle bracket. */
  predicate Plain(s: string)
  {
    '\'' !in s && '<' !in s && '>' !in s
  }

  lemma OpeningTagDelimited(tag: string, props: Props)
    requires OpeningTag(tag, props).Success? && Plain(tag)
    requires forall i :: 0 <= i < |props| ==> props[i].0.PText? && Plain(props[i].0.text)
    ensures var t := OpeningTag(tag, props).value;
      t[0] == '<' && t[|t| - 1] == '>' &&
      Count(t, '\'') == 2 * |props| && Count(t, '<') == 1 && Count(t, '>') == 1
  {
    AttributesDelimited(props);
  }

  // ---------------------------------------------------------------------
  // The outputter
  // ---------------------------------------------------------------------

  /** One written line: the indentation repeated `level` times, the text and
      a newline. */
  function Line(indent: string, level: nat, txt: string): string
  {
    Strings.Repeat(indent, level) + txt + "\n"
  }

  function ClosingTag(tag: string): string
  {
    "</" + tag + ">"
  }

  /** The lines `close_all` writes for a stack of open tags, topmost first,
      each one indentation step shallower than the one before (never below
      zero). */
  function ClosingLines(indent: string, level: nat, stack: seq<string>): seq<string>
    decreases |stack|
  {
    if stack == [] then []
    else
      var l := if level > 0 then level - 1 else 0;
      [Line(indent, l, ClosingTag(stack[|stack| - 1]))] + ClosingLines(indent, l, stack[..|stack| - 1])
  }

  /** The indentation level left after closing `n` tags. */
  function LevelAfter(level: nat, n: nat): nat
  {
    if level >= n then level - n else 0
  }

  class XmlTagOutputter {
    const indent: string
    var indentLevel: nat
    var tagStack: seq<string>
    /** The buffered document. */
    var xml: string
    /** Whether a write callback is installed, and the lines handed to it. */
    var callback: bool
    var delivered: seq<string>
    var buffer: bool

    /** Open tags and indentation move together. */
    predicate Valid()
      reads this
    {
      indentLevel == |tagStack|
    }

    constructor (indent: string := "\t")
      ensures this.indent == indent && indentLevel == 0 && tagStack == [] && xml == ""
      ensures !callback && delivered == [] && buffer
      ensures Valid()
    {
      this.indent := indent;
      indentLevel := 0;
      tagStack := [];
      xml := "";
      callback := false;
      delivered := [];
      buffer := true;
    }

    /** The text as it is emitted: handed to the callback if any, appended
        to the buffer if buffering. */
    method Emit(line: string)
      modifies this
      ensures delivered == old(delivered) + (if callback then [line] else [])
      ensures xml == old(xml) + (if buffer then line else "")
      ensures indentLevel == old(indentLevel) && tagStack == old(tagStack)
      ensures callback == old(callback) && buffer == old(buffer)
    {
      if callback {
        delivered := delivered + [line];
      }
      if buffer {
        xml := xml + line;
      }
    }

    /** `write`: one line of raw text at the current indentation. */
    method Write(txt: string)
      modifies this
      ensures delivered == old(delivered) + (if callback then [Line(indent, indentLevel, txt)] else [])
      ensures xml == old(xml) + (if buffer then Line(indent, indentLevel, txt) else "")
      ensures indentLevel == old(indentLevel) && tagStack == old(tagStack)
      ensures callback == old(callback) && buffer == old(buffer)
    {
      var line := Strings.Repeat(indent, indentLevel) + txt + "\n";
      Emit(line);
    }

    /** `open_tag`: writes the opening tag, then indents and pushes the tag.
        A refused property list changes nothing. */
    method OpenTag(tag: string, props: Props := []) returns (r: Result<(), XmlError>)
      modifies this
      ensures r.Failure? <==> OpeningTag(tag, props).Failure?
      ensures r.Failure? ==> unchanged(this)
      ensures r.Success? ==>
        && delivered == old(delivered) + (if callback then [Line(indent, old(indentLevel), OpeningTag(tag, props).value)] else [])
        && xml == old(xml) + (if buffer then Line(indent, old(indentLevel), OpeningTag(tag, props).value) else "")
        && indentLevel == old(indentLevel) + 1
        && tagStack == old(tagStack) + [tag]
      ensures callback == old(callback) && buffer == old(buffer)
      ensures old(Valid()) ==> Valid()
    {
      var open := TagFromSpec(tag, props);
      if open.Failure? {
        return Failure(open.error);
      }
      Write(open.value);
      indentLevel := indentLevel + 1;
      tagStack := tagStack + [tag];
      return Success(());
    }

    /** `close_tag`: if a tag is open, unindents (never below zero), pops it
        and writes its closing tag. */
    method CloseTag()
      modifies this
      ensures old(tagStack) == [] ==> unchanged(this)
      ensures old(tagStack) != [] ==>
        var line := Line(indent, LevelAfter(old(indentLevel), 1), ClosingTag(old(tagStack)[|old(tagStack)| - 1]));
        && tagStack == old(tagStack)[..|old(tagStack)| - 1]
        && indentLevel == LevelAfter(old(indentLevel), 1)
        && delivered == old(delivered) + (if callback then [line] else [])
        && xml == old(xml) + (if buffer then line else "")
      ensures callback == old(callback) && buffer == old(buffer)
      ensures old(Valid()) ==> Valid()
    {
      if |tagStack| > 0 {
        if indentLevel > 0 {
          indentLevel := indentLevel - 1;
        }
        var top := tagStack[|tagStack| - 1];
        tagStack := tagStack[..|tagStack| - 1];
        Write(ClosingTag(top));
      }
    }

    /** `close_all`: closes every open tag, topmost first. */
    method CloseAll()
      modifies this
      ensures tagStack == []
      ensures indentLevel == LevelAfter(old(indentLevel), |old(tagStack)|)
      ensures delivered == old(delivered) + (if callback then ClosingLines(indent, old(indentLevel), old(tagStack)) else [])
      ensures xml == old(xml) + (if buffer then Seqs.Flatten(ClosingLines(indent, old(indentLevel), old(tagStack))) else "")
      ensures callback == old(callback) && buffer == old(buffer)
      ensures old(Valid()) ==> Valid()
    {
      hide ClosingLines, Line;
      ghost var all := ClosingLines(indent, indentLevel, tagStack);
      ghost var done: seq<string> := [];
      while |tagStack| > 0
        invariant done + ClosingLines(indent, indentLevel, tagStack) == all
        invariant LevelAfter(indentLevel, |tagStack|) == LevelAfter(old(indentLevel), |old(tagStack)|)
        invariant delivered == old(delivered) + (if callback then done else [])
        invariant xml == old(xml) + (if buffer then Seqs.Flatten(done) else "")
        invariant callback == old(callback) && buffer == old(buffer)
        decreases |tagStack|
      {
        hide *;
        ghost var level, stack := indentLevel, tagStack;
        ghost var delivered0, xml0 := delivered, xml;
        ghost var line := Line(indent, LevelAfter(level, 1), ClosingTag(stack[|stack| - 1]));
        CloseTag();
        assert tagStack == stack[..|stack| - 1] && indentLevel == LevelAfter(level, 1);
        assert delivered == delivered0 + (if callback then [line] else []);
        assert xml == xml0 + (if buffer then line else "");
        CloseAllStep(indent, done, level, stack, all);
        done := done + [line];
      }
      ClosingLinesEmpty(indent, indentLevel);
      assert done == all;
    }

    /** `inline_tag`: a whole element on one line, its content escaped. */
    method InlineTag(tag: string, props: Props, content: string) returns (r: Result<(), XmlError>)
      modifies this
      ensures r.Failure? <==> OpeningTag(tag, props).Failure?
      ensures r.Failure? ==> unchanged(this)
      ensures r.Success? ==>
        var line := Line(indent, indentLevel, OpeningTag(tag, props).value + Escape(content) + ClosingTag(tag));
        && delivered == old(delivered) + (if callback then [line] else [])
        && xml == old(xml) + (if buffer then line else "")
      ensures indentLevel == old(indentLevel) && tagStack == old(tagStack)
      ensures callback == old(callback) && buffer == old(buffer)
    {
      var open := TagFromSpec(tag, props);
      if open.Failure? {
        return Failure(open.error);
      }
      Write(open.value + Escape(content) + ClosingTag(tag));
      return Success(());
    }
  }

  /** When indentation matches the stack, `close_all` closes the tags in
      reverse order of opening, the `j`-th line at depth `|stack| - 1 - j`. */
  lemma {:induction false} ClosingLinesOrder(indent: string, stack: seq<string>, j: nat)
    requires j < |stack|
    ensures |ClosingLines(indent, |stack|, stack)| == |stack|
    ensures ClosingLines(indent, |stack|, stack)[j]
         == Line(indent, |stack| - 1 - j, ClosingTag(stack[|stack| - 1 - j]))
    decreases |stack|
  {
    var init := stack[..|stack| - 1];
    ClosingLinesLength(indent, |init|, init);
    if j > 0 {
      ClosingLinesOrder(indent, init, j - 1);
      assert init[|init| - 1 - (j - 1)] == stack[|stack| - 1 - j];
    }
  }

  lemma {:induction false} ClosingLinesLength(indent: string, level: nat, stack: seq<string>)
    ensures |ClosingLines(indent, level, stack)| == |stack|
    decreases |stack|
  {
    if stack != [] {
      ClosingLinesLength(indent, if level > 0 then level - 1 else 0, stack[..|stack| - 1]);
    }
  }

  lemma ClosingLinesStep(indent: string, level: nat, stack: seq<string>)
    requires stack != []
    ensures ClosingLines(indent, level, stack)
         == [Line(indent, LevelAfter(level, 1), ClosingTag(stack[|stack| - 1]))]
            + ClosingLines(indent, LevelAfter(level, 1), stack[..|stack| - 1])
    ensures LevelAfter(LevelAfter(level, 1), |stack| - 1) == LevelAfter(level, |stack|)
  {
  }

  /** One round of `close_all`'s loop moves the topmost closing line from
      the lines still due to the lines written. */
  lemma ClosingLinesEmpty(indent: string, level: nat)
    ensures ClosingLines(indent, level, []) == []
  {
  }

  lemma CloseAllStep(indent: string, done: seq<string>, level: nat, stack: seq<string>, all: seq<string>)
    requires stack != [] && done + ClosingLines(indent, level, stack) == all
    ensures var line := Line(indent, LevelAfter(level, 1), ClosingTag(stack[|stack| - 1]));
      && (done + [line]) + ClosingLines(indent, LevelAfter(level, 1), stack[..|stack| - 1]) == all
      && Seqs.Flatten(done + [line]) == Seqs.Flatten(done) + line
  {
    hide ClosingLines, Line;
    var line := Line(indent, LevelAfter(level, 1), ClosingTag(stack[|stack| - 1]));
    ClosingLinesStep(indent, level, stack);
    Seqs.FlattenAppend(done, [line]);
    assert Seqs.Flatten([line]) == line + Seqs.Flatten([]);
  }
}
