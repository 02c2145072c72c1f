/** The test filter (plugins/test_filter.py): a line from the server that
    starts with `K` or `J` gets that letter replaced by `X`. */
module TestFilter {
  import opened Wrappers
  import opened TextLines

  predicate Marked(c: char)
  {
    c == 'K' || c == 'J'
  }

  /** The new text of a line, or the index error an empty line raises. */
  function Rewrite(s: string): (r: Result<string, FilterError>)
    ensures r.Failure? <==> s == []
    ensures r.Success? ==> |r.value| == |s| && r.value[1..] == s[1..]
    ensures r.Success? ==> !Marked(r.value[0])
    ensures r.Success? && Marked(s[0]) ==> r.value[0] == 'X'
    ensures r.Success? && !Marked(s[0]) ==> r.value == s
  {
    if s == [] then Failure(IndexError)
    else if Marked(s[0]) then Success("X" + s[1..])
    else Success(s)
  }

  /** Rewriting a rewritten line changes nothing more. */
  lemma RewriteIdempotent(s: string)
    requires Rewrite(s).Success?
    ensures Rewrite(Rewrite(s).value) == Rewrite(s)
  {
  }

  /** `TestFilter.from_server`: rewrites the line in place and returns the
      same line object. */
  method FromServer(line: TextLine) returns (r: Result<TextLine, FilterError>)
    modifies line
    ensures r.Failure? <==> old(line.text) == []
    ensures r.Failure? ==> unchanged(line)
    ensures r.Success? ==> r.value == line && line.text == Rewrite(old(line.text)).value
  {
    var s := line.AsStr();
    if |s| == 0 {
      return Failure(IndexError);
    }
    if Marked(s[0]) {
      line.Set("X" + s[1..]);
    }
    return Success(line);
  }
}
