/** The curly-quote filter (plugins/no_curly_quotes.py): text typed by the
    user has its typographic quotation marks replaced by plain ASCII ones. */
module NoCurlyQuotes {
  import opened Wrappers
  import Strings
  import opened TextLines

  /** `REPLACEMENTS`, in the dictionary's order. */
  const REPLACEMENTS: seq<(char, string)> := [
    ('‘', "'"),
    ('’', "'"),
    ('‚', ","),
    ('‛', "'"),
    ('“', "\""),
    ('”', "\""),
    ('„', ""),
    ('‟', "\""),
    ('＂', "\""),
    ('＇', "'")
  ]

  /** The marks the table rewrites. */
  predicate IsCurly(c: char)
  {
    c == '‘' || c == '’' || c == '‚' || c == '‛' || c == '“'
    || c == '”' || c == '„' || c == '‟' || c == '＂' || c == '＇'
  }

  /** Each entry of `table` replaced in turn, in table order. */
  function ApplyTable(table: seq<(char, string)>, s: string): string
    decreases |table|
  {
    if table == [] then s
    else ApplyTable(table[1..], Strings.Replace(s, [table[0].0], table[0].1))
  }

  /** What the filter does to one character. */
  function Straight(c: char): (r: string)
    ensures IsCurly(c) ==> |r| <= 1 && forall d :: d in r ==> d < 128 as char
    ensures !IsCurly(c) ==> r == [c]
    ensures r == [] <==> c == '„'
  {
    if c == '‘' || c == '’' || c == '‛' || c == '＇' then "'"
    else if c == '“' || c == '”' || c == '‟' || c == '＂' then "\""
    else if c == '‚' then ","
    else if c == '„' then ""
    else [c]
  }

  /** The table maps exactly the curly marks, each to `Straight` of it. */
  lemma TableMatchesStraight()
    ensures forall i :: 0 <= i < |REPLACEMENTS| ==> IsCurly(REPLACEMENTS[i].0)
    ensures forall i :: 0 <= i < |REPLACEMENTS| ==> REPLACEMENTS[i].1 == Straight(REPLACEMENTS[i].0)
    ensures forall c :: IsCurly(c) ==> exists i :: 0 <= i < |REPLACEMENTS| && REPLACEMENTS[i].0 == c
  {
    forall c | IsCurly(c)
      ensures exists i :: 0 <= i < |REPLACEMENTS| && REPLACEMENTS[i].0 == c
    {
      if c == '‘' { assert REPLACEMENTS[0].0 == c; }
      else if c == '’' { assert REPLACEMENTS[1].0 == c; }
      else if c == '‚' { assert REPLACEMENTS[2].0 == c; }
      else if c == '‛' { assert REPLACEMENTS[3].0 == c; }
      else if c == '“' { assert REPLACEMENTS[4].0 == c; }
      else if c == '”' { assert REPLACEMENTS[5].0 == c; }
      else if c == '„' { assert REPLACEMENTS[6].0 == c; }
      else if c == '‟' { assert REPLACEMENTS[7].0 == c; }
      else if c == '＂' { assert REPLACEMENTS[8].0 == c; }
      else { assert REPLACEMENTS[9].0 == c; }
    }
  }

  /** Applying a table distributes over concatenation. */
  lemma {:induction false} ApplyTableAppend(table: seq<(char, string)>, a: string, b: string)
    ensures ApplyTable(table, a + b) == ApplyTable(table, a) + ApplyTable(table, b)
    decreases |table|
  {
    if table != [] {
      var c, r := table[0].0, table[0].1;
      Strings.ReplaceCharAppend(a, b, c, r);
      ApplyTableAppend(table[1..], Strings.Replace(a, [c], r), Strings.Replace(b, [c], r));
    }
  }

  /** Text holding none of the table's keys passes unchanged. */
  lemma {:induction false} ApplyTableAbsent(table: seq<(char, string)>, s: string)
    requires forall i :: 0 <= i < |table| ==> table[i].0 !in s
    ensures ApplyTable(table, s) == s
    decreases |table|
  {
    if table != [] {
      Strings.ReplaceCharAbsent(s, table[0].0, table[0].1);
      ApplyTableAbsent(table[1..], s);
    }
  }

  /** One character goes through the table as `Straight` says, because no
      replacement text holds a key of the table. */
  lemma {:induction false} ApplyTableSingle(table: seq<(char, string)>, x: char)
    requires forall i :: 0 <= i < |table| ==> IsCurly(table[i].0) && table[i].1 == Straight(table[i].0)
    ensures ApplyTable(table, [x]) ==
      if exists i :: 0 <= i < |table| && table[i].0 == x then Straight(x) else [x]
    decreases |table|
  {
    if table != [] {
      var c, r := table[0].0, table[0].1;
      Strings.ReplaceCharSingle(x, c, r);
      if x == c {
        forall i | 0 <= i < |table[1..]|
          ensures table[1..][i].0 !in r
        {
          assert IsCurly(table[1..][i].0);
        }
        ApplyTableAbsent(table[1..], r);
      } else {
        ApplyTableSingle(table[1..], x);
        if exists i :: 0 <= i < |table| && table[i].0 == x {
          var i :| 0 <= i < |table| && table[i].0 == x;
          assert table[1..][i - 1].0 == x;
        }
      }
    }
  }

  /** The whole table acts character by character. */
  lemma {:induction false} StraightenCharwise(s: string)
    ensures ApplyTable(REPLACEMENTS, s) == Strings.FlatMap(Straight, s)
  {
    hide ApplyTable, Strings.Replace;
    if s == [] {
      ApplyTableAbsent(REPLACEMENTS, s);
    } else {
      assert s == [s[0]] + s[1..];
      ApplyTableAppend(REPLACEMENTS, [s[0]], s[1..]);
      StraightenChar(s[0]);
      StraightenCharwise(s[1..]);
    }
  }

  lemma StraightenChar(x: char)
    ensures ApplyTable(REPLACEMENTS, [x]) == Straight(x)
  {
    hide ApplyTable, Strings.Replace;
    TableMatchesStraight();
    ApplyTableSingle(REPLACEMENTS, x);
  }

  /** The text `from_client` leaves in the line. */
  function Straighten(s: string): string
  {
    ApplyTable(REPLACEMENTS, s)
  }

  /** No curly mark survives. */
  lemma StraightenRemovesCurly(s: string)
    ensures forall c :: c in Straighten(s) ==> !IsCurly(c)
  {
    hide ApplyTable, Strings.Replace;
    StraightenCharwise(s);
    forall c | c in Straighten(s)
      ensures !IsCurly(c)
    {
      Strings.FlatMapMember(Straight, s, c);
    }
  }

  /** Text without curly marks, in particular ASCII text, is unchanged. */
  lemma StraightenPlain(s: string)
    requires forall c :: c in s ==> !IsCurly(c)
    ensures Straighten(s) == s
  {
    hide ApplyTable, Strings.Replace;
    TableMatchesStraight();
    ApplyTableAbsent(REPLACEMENTS, s);
  }

  lemma StraightenAscii(s: string)
    requires forall c :: c in s ==> c < 128 as char
    ensures Straighten(s) == s
  {
    StraightenPlain(s);
  }

  /** Straightening twice is straightening once. */
  lemma StraightenIdempotent(s: string)
    ensures Straighten(Straighten(s)) == Straighten(s)
  {
    hide ApplyTable, Strings.Replace;
    StraightenRemovesCurly(s);
    StraightenPlain(Straighten(s));
  }

  /** `CurlyQuoteFilter.from_client`: each table entry is replaced in turn
      and the line is given the result. */
  method FromClient(line: TextLine) returns (r: TextLine)
    modifies line
    ensures r == line && line.text == Straighten(old(line.text))
  {
    var c := line.AsStr();
    for i := 0 to |REPLACEMENTS|
      invariant ApplyTable(REPLACEMENTS[i..], c) == Straighten(old(line.text))
    {
      assert REPLACEMENTS[i..][1..] == REPLACEMENTS[i + 1..];
      var (bad, good) := REPLACEMENTS[i];
      c := Strings.Replace(c, [bad], good);
    }
    line.Set(c);
    return line;
  }

  /** `CurlyQuoteFilter.from_server`: the line passes untouched. */
  method FromServer(line: TextLine) returns (r: TextLine)
    ensures r == line
  {
    return line;
  }
}
