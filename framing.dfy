/** The separator loop that proxy.py runs twice, on the text send buffer
    (separator '\n', proxy.py:52-61) and on the byte receive buffer
    (separator byte 10, proxy.py:106-115). After cutting a line whose
    separator sat at index x, the loop tests `x >= len(buffer)` against the
    SHORTENED buffer, so it stops as soon as what is left is no longer than
    x, even when the rest still holds a separator. */
module Framing {
  import opened Seqs

  /** Index of the first `x` in `s`. */
  function FirstIndex<T(==)>(s: seq<T>, x: T): (i: nat)
    requires x in s
    ensures i < |s| && s[i] == x && x !in s[..i]
  {
    if s[0] == x then 0
    else
      var i := 1 + FirstIndex(s[1..], x);
      assert s[..i] == [s[0]] + s[1..][..i - 1];
      i
  }

  /** The lines the loop cuts off `buf`, in order, and what it leaves behind. */
  function Frame<T(==)>(buf: seq<T>, sep: T): (seq<seq<T>>, seq<T>)
    decreases |buf|
  {
    if sep !in buf then ([], buf)
    else
      var x := FirstIndex(buf, sep);
      var rest := buf[x + 1..];
      if x >= |rest| then ([buf[..x + 1]], rest)
      else
        var (lines, left) := Frame(rest, sep);
        ([buf[..x + 1]] + lines, left)
  }

  /** The inner search of the loop: the index of the first separator, or
      `|s|` when there is none. */
  method FindSeparator<T(==)>(s: seq<T>, sep: T) returns (x: nat)
    ensures x <= |s| && sep !in s[..x]
    ensures x < |s| <==> sep in s
    ensures x < |s| ==> s[x] == sep && x == FirstIndex(s, sep)
  {
    x := 0;
    while x < |s|
      invariant 0 <= x <= |s| && sep !in s[..x]
    {
      if s[x] == sep {
        return;
      }
      x := x + 1;
    }
    assert s[..x] == s;
  }

  /** The separator loop itself, run on a buffer: it returns the lines it
      cut, in order, and what it left in the buffer. */
  method CutLines<T(==)>(buf: seq<T>, sep: T) returns (lines: seq<seq<T>>, left: seq<T>)
    ensures lines == Frame(buf, sep).0 && left == Frame(buf, sep).1
  {
    lines, left := [], buf;
    while |left| > 0
      invariant Frame(buf, sep).0 == lines + Frame(left, sep).0
      invariant Frame(buf, sep).1 == Frame(left, sep).1
      decreases |left|
    {
      var x := FindSeparator(left, sep);
      if x < |left| {
        FrameAt(left, sep, x);
        lines := lines + [left[..x + 1]];
        left := left[x + 1..];
      } else {
        assert lines + [] == lines;
      }
      if x >= |left| {
        break;
      }
    }
    if |left| == 0 {
      assert lines + [] == lines;
    }
  }

  /** One turn of the loop: the first separator sits at `x`, the line up
      to it is cut, and the loop goes on only if more than `x` elements are
      left. */
  lemma FrameAt<T>(buf: seq<T>, sep: T, x: nat)
    requires x < |buf| && buf[x] == sep && sep !in buf[..x]
    ensures Frame(buf, sep) ==
      if x >= |buf[x + 1..]| then ([buf[..x + 1]], buf[x + 1..])
      else ([buf[..x + 1]] + Frame(buf[x + 1..], sep).0, Frame(buf[x + 1..], sep).1)
  {
  }

  /** Nothing is lost or duplicated: the lines followed by the leftover are
      exactly the input. */
  lemma {:induction false} FrameConserves<T>(buf: seq<T>, sep: T)
    ensures Flatten(Frame(buf, sep).0) + Frame(buf, sep).1 == buf
    decreases |buf|
  {
    if sep in buf {
      var x := FirstIndex(buf, sep);
      var rest := buf[x + 1..];
      assert buf == buf[..x + 1] + rest;
      if x < |rest| {
        FrameConserves(rest, sep);
        var (lines, left) := Frame(rest, sep);
        assert ([buf[..x + 1]] + lines)[1..] == lines;
      } else {
        assert [buf[..x + 1]][1..] == [];
      }
    }
  }

  /** A line ends in the separator and holds no other separator. */
  predicate IsLine<T(==)>(line: seq<T>, sep: T)
  {
    |line| > 0 && line[|line| - 1] == sep && sep !in line[..|line| - 1]
  }

  lemma {:induction false} FrameCutsLines<T>(buf: seq<T>, sep: T)
    ensures forall k :: 0 <= k < |Frame(buf, sep).0| ==> IsLine(Frame(buf, sep).0[k], sep)
    decreases |buf|
  {
    if sep in buf {
      var x := FirstIndex(buf, sep);
      var rest := buf[x + 1..];
      assert buf[..x + 1][..x] == buf[..x];
      if x < |rest| {
        FrameCutsLines(rest, sep);
      }
    }
  }

  /** Without a separator nothing is cut. */
  lemma FrameWithoutSeparator<T>(buf: seq<T>, sep: T)
    requires sep !in buf
    ensures Frame(buf, sep) == ([], buf)
  {
  }

  /** The early stop, exactly: a separator can remain in the leftover only
      when at least one line was cut and the leftover is shorter than the
      last line cut. */
  lemma {:induction false} FrameLeftover<T>(buf: seq<T>, sep: T)
    ensures var (lines, left) := Frame(buf, sep);
      sep in left ==> |lines| > 0 && |left| < |lines[|lines| - 1]|
    decreases |buf|
  {
    if sep in buf {
      var x := FirstIndex(buf, sep);
      var rest := buf[x + 1..];
      if x < |rest| {
        FrameLeftover(rest, sep);
      }
    }
  }

  /** Conversely, every line but the last was cut because what followed it
      was at least as long as the line. */
  lemma {:induction false} FrameContinues<T>(buf: seq<T>, sep: T, k: nat)
    requires k + 1 < |Frame(buf, sep).0|
    ensures |Frame(buf, sep).0[k]| <= |Flatten(Frame(buf, sep).0[k + 1..]) + Frame(buf, sep).1|
    decreases |buf|
  {
    var x := FirstIndex(buf, sep);
    var rest := buf[x + 1..];
    var (lines, left) := Frame(rest, sep);
    assert Frame(buf, sep).0 == [buf[..x + 1]] + lines;
    if k == 0 {
      FrameConserves(rest, sep);
      assert Frame(buf, sep).0[1..] == lines;
    } else {
      FrameContinues(rest, sep, k - 1);
      assert Frame(buf, sep).0[k + 1..] == lines[k..];
    }
  }

  /** The example of the early stop: "ab\nc\n" gives "ab\n" and keeps "c\n". */
  lemma FrameStopsEarlyExample()
    ensures Frame("ab\nc\n", '\n') == (["ab\n"], "c\n")
  {
    var buf := "ab\nc\n";
    assert buf[0] != '\n' && buf[1] != '\n' && buf[2] == '\n';
    assert FirstIndex(buf[1..], '\n') == 1 + FirstIndex(buf[2..], '\n');
    assert '\n' in buf;
    assert FirstIndex(buf[2..], '\n') == 0;
    assert FirstIndex(buf, '\n') == 2;
    assert buf[3..] == "c\n" && buf[..3] == "ab\n";
  }
}
