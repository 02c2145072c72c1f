/** The say-quote stripper (plugins/say_no_end_quotes.py): a line typed by
    the user that starts with `"` (a MUD `say`) loses its line breaks and its
    trailing quotes, and gets one newline back. */
module SayNoEndQuotes {
  import opened Wrappers
  import Strings
  import opened TextLines

  /** Every `"\r\n"`, then every `"\n"`, removed. */
  function Collapse(s: string): string
  {
    Strings.Replace(Strings.Replace(s, "\r\n", ""), "\n", "")
  }

  /** `x` with its trailing quotes dropped, or `None` when that would read
      past the start (the `x[-1]` of an empty string). */
  function TrimQuotes(x: string): (r: Option<string>)
    ensures r.None? <==> forall i :: 0 <= i < |x| ==> x[i] == '"'
    ensures r.Some? ==> && r.value != [] && r.value <= x && r.value[|r.value| - 1] != '"'
                        && forall i :: |r.value| <= i < |x| ==> x[i] == '"'
    decreases |x|
  {
    if x == [] then None
    else if x[|x| - 1] == '"' then TrimQuotes(x[..|x| - 1])
    else Some(x)
  }

  /** The text `from_client` leaves in the line, or the index error it
      raises. */
  function StripQuotes(s: string): (r: Result<string, FilterError>)
    ensures s != [] && s[0] != '"' ==> r == Success(s)
  {
    if s == [] then Failure(IndexError)
    else if s[0] != '"' then Success(s)
    else
      match TrimQuotes(Collapse(s))
      case None => Failure(IndexError)
      case Some(t) => Success(t + "\n")
  }

  /** Line breaks are gone from the collapsed text and a leading quote
      stays in front. */
  lemma CollapseShape(s: string)
    ensures '\n' !in Collapse(s)
    ensures s != [] && s[0] == '"' ==> Collapse(s) != [] && Collapse(s)[0] == '"'
  {
    var s1 := Strings.Replace(s, "\r\n", "");
    if '\n' in Collapse(s) {
      Strings.ReplaceCharMembership(s1, '\n', "", '\n');
    }
    if s != [] && s[0] == '"' {
      Strings.ReplaceKeepsHead(s, "\r\n", "");
      Strings.ReplaceKeepsHead(s1, "\n", "");
    }
  }

  /** A quoted line fails exactly when nothing but quotes and line breaks
      is left; otherwise it keeps its leading quote, ends in one newline
      with no quote before it, and holds no other newline. */
  lemma StripQuotesQuoted(s: string)
    requires s != [] && s[0] == '"'
    ensures StripQuotes(s).Failure? <==> forall i :: 0 <= i < |Collapse(s)| ==> Collapse(s)[i] == '"'
    ensures StripQuotes(s).Success? ==>
      var r := StripQuotes(s).value;
      && |r| >= 2 && r[0] == '"' && r[|r| - 1] == '\n' && r[|r| - 2] != '"'
      && '\n' !in r[..|r| - 1]
  {
    CollapseShape(s);
    var x := Collapse(s);
    if StripQuotes(s).Success? {
      var t := TrimQuotes(x).value;
      var r := t + "\n";
      assert r[..|r| - 1] == t;
      assert t[0] == x[0];
      assert forall c :: c in t ==> c in x;
    }
  }

  /** Stripping a stripped line changes nothing, unless the kept text ends
      in a lone carriage return, which then pairs with the added newline. */
  lemma StripQuotesIdempotent(s: string)
    requires StripQuotes(s).Success?
    requires var r := StripQuotes(s).value; |r| < 2 || r[|r| - 2] != '\r'
    ensures StripQuotes(StripQuotes(s).value) == StripQuotes(s)
  {
    if s[0] == '"' {
      StripQuotesQuoted(s);
      var r := StripQuotes(s).value;
      var t := r[..|r| - 1];
      assert r == t + "\n";
      NoPairAtEnd(t);
      Strings.ReplaceAbsent(r, "\r\n", "");
      Strings.ReplaceCharAppend(t, "\n", '\n', "");
      Strings.ReplaceCharAbsent(t, '\n', "");
      Strings.ReplaceCharSingle('\n', '\n', "");
      assert Collapse(r) == t;
    }
  }

  /** `"\r\n"` cannot occur in `t + "\n"` when `t` has no newline and does
      not end in a carriage return. */
  lemma NoPairAtEnd(t: string)
    requires t != [] && '\n' !in t && t[|t| - 1] != '\r'
    ensures !Strings.Occurs(t + "\n", "\r\n")
  {
    var u := t + "\n";
    forall i: nat
      ensures !Strings.OccursAt(u, "\r\n", i)
    {
      if i + 2 > |u| {
      } else if i + 1 < |t| {
        assert u[i..i + 2][1] == t[i + 1];
      } else {
        assert u[i..i + 2][0] == t[|t| - 1];
      }
    }
  }

  /** The exception: a kept carriage return is paired with the newline on
      the second pass. */
  lemma StripQuotesNotIdempotent()
    ensures StripQuotes("\"a\r").Success?
    ensures StripQuotes(StripQuotes("\"a\r").value) != StripQuotes("\"a\r")
  {
    StripQuotesKeepsReturn();
    StripQuotesPairsReturn();
  }

  lemma StripQuotesKeepsReturn()
    ensures StripQuotes("\"a\r") == Success("\"a\r\n")
  {
    var s := "\"a\r";
    CollapseNoNewline(s);
    assert s[|s| - 1] == '\r';
    assert TrimQuotes(s) == Some(s);
    assert s + "\n" == "\"a\r\n";
  }

  lemma StripQuotesPairsReturn()
    ensures StripQuotes("\"a\r\n") == Success("\"a\n")
  {
    var u := "\"a\r\n";
    Strings.ReplaceSkip(u, "\r\n", "");
    assert u[1..] == "a\r\n";
    Strings.ReplaceSkip(u[1..], "\r\n", "");
    assert u[1..][1..] == "\r\n" && "\r\n"[2..] == [];
    assert Strings.Replace("\r\n", "\r\n", "") == [];
    assert Strings.Replace(u, "\r\n", "") == "\"a";
    Strings.ReplaceCharAbsent("\"a", '\n', "");
    assert Collapse(u) == "\"a";
    assert "\"a"[1] == 'a';
    assert TrimQuotes("\"a") == Some("\"a");
    assert u != [] && u[0] == '"' && "\"a" + "\n" == "\"a\n";
  }

  /** Text without newlines is its own collapse. */
  lemma CollapseNoNewline(s: string)
    requires '\n' !in s
    ensures Collapse(s) == s
  {
    forall i: nat
      ensures !Strings.OccursAt(s, "\r\n", i)
    {
      if i + 2 <= |s| {
        assert s[i..i + 2][1] == s[i + 1];
      }
    }
    Strings.ReplaceAbsent(s, "\r\n", "");
    Strings.ReplaceCharAbsent(s, '\n', "");
  }

  /** `SayQuoteStripper.from_client`. */
  method FromClient(line: TextLine) returns (r: Result<TextLine, FilterError>)
    modifies line
    ensures r.Failure? <==> StripQuotes(old(line.text)).Failure?
    ensures r.Failure? ==> unchanged(line)
    ensures r.Success? ==> r.value == line && line.text == StripQuotes(old(line.text)).value
  {
    var s := line.AsStr();
    if |s| == 0 {
      return Failure(IndexError);
    }
    if s[0] == '"' {
      var x := Strings.Replace(Strings.Replace(s, "\r\n", ""), "\n", "");
      while |x| == 0 || x[|x| - 1] == '"'
        invariant TrimQuotes(x) == TrimQuotes(Collapse(s))
        decreases |x|
      {
        if |x| == 0 {
          return Failure(IndexError);
        }
        x := x[..|x| - 1];
      }
      line.Set(x + "\n");
    }
    return Success(line);
  }

  /** `SayQuoteStripper.from_server`: the line passes untouched. */
  method FromServer(line: TextLine) returns (r: TextLine)
    ensures r == line
  {
    return line;
  }
}
