/** The XML logging plugin (plugins/xlogs.py): one log file per connection
    session, opened on demand, in which every line from the server becomes a
    `line` element holding one `text` element per run of equally coloured
    text. Files, clocks and the logging module are outside the model: the
    file is the outputter's callback sink, and the timestamps are
    parameters. */
module XLogs {
  import opened Wrappers
  import Seqs
  import Strings
  import Ansi
  import opened XmlWriter
  import opened TextLines

  /** The indentation the log writer is created with. */
  const INDENT: string := "   "

  // ---------------------------------------------------------------------
  // File names
  // ---------------------------------------------------------------------

  /** `get_new_filename`: `DATE` becomes the timestamp, then `CONNECTION`
      the connection's name. */
  function NewFilename(template: string, stamp: string, connection: string): string
  {
    Strings.Replace(Strings.Replace(template, "DATE", stamp), "CONNECTION", connection)
  }

  /** Every `DATE` is replaced, then every `CONNECTION` of the result: the
      name is the template cut at its `DATE`s and joined with the stamp, cut
      again at `CONNECTION` and joined with the name, and no cut piece still
      holds the word it was cut at. */
  lemma NewFilenameReplacesAll(template: string, stamp: string, connection: string)
    ensures var dated := Strings.Join(Strings.SplitOn(template, "DATE"), stamp);
      NewFilename(template, stamp, connection) == Strings.Join(Strings.SplitOn(dated, "CONNECTION"), connection)
    ensures forall k :: 0 <= k < |Strings.SplitOn(template, "DATE")| ==>
      !Strings.Occurs(Strings.SplitOn(template, "DATE")[k], "DATE")
  {
    Strings.ReplaceIsJoinOfSplit(template, "DATE", stamp);
    var dated := Strings.Replace(template, "DATE", stamp);
    Strings.ReplaceIsJoinOfSplit(dated, "CONNECTION", connection);
    Strings.SplitPiecesAvoidSeparator(template, "DATE");
  }

  /** A template without placeholders is used as it is. */
  lemma NewFilenamePlain(template: string, stamp: string, connection: string)
    requires !Strings.Occurs(template, "DATE") && !Strings.Occurs(template, "CONNECTION")
    ensures NewFilename(template, stamp, connection) == template
  {
    Strings.ReplaceAbsent(template, "DATE", stamp);
    Strings.ReplaceAbsent(template, "CONNECTION", connection);
  }

  // ---------------------------------------------------------------------
  // Grouping parsed chunks into text records
  // ---------------------------------------------------------------------

  /** One `text` element: the colours in force and the text. */
  type Record = (Ansi.ColorMap, string)

  /** The loop's `pending_colors` and `pending_text`. */
  datatype Pending = Pending(colors: Option<Ansi.ColorMap>, text: Option<string>)

  /** One round of the loop: the new pending state and the record flushed,
      if any. A colour map flushes the pending text only when colours were
      already set; text is appended to the pending text. */
  function GroupStep(p: Pending, c: Ansi.Chunk): (Pending, seq<Record>)
  {
    match c
    case Colors(m) =>
      if p.colors.Some? && p.text.Some? then (Pending(Some(m), None), [(p.colors.value, p.text.value)])
      else (Pending(Some(m), p.text), [])
    case Text(t) =>
      (Pending(p.colors, Some(if p.text.Some? then p.text.value + t else t)), [])
  }

  /** The pending state and the records flushed after a prefix of the
      chunks. */
  function GroupPrefix(chunks: seq<Ansi.Chunk>): (Pending, seq<Record>)
    decreases |chunks|
  {
    if chunks == [] then (Pending(None, None), [])
    else
      var (p, out) := GroupPrefix(chunks[..|chunks| - 1]);
      var (q, flushed) := GroupStep(p, chunks[|chunks| - 1]);
      (q, out + flushed)
  }

  /** The records written for a line: those flushed by the loop, then the
      text still pending, under the pending colours or `{}`. */
  function Records(chunks: seq<Ansi.Chunk>): seq<Record>
  {
    var (p, out) := GroupPrefix(chunks);
    out + (if p.text.Some? then [(p.colors.GetOr([]), p.text.value)] else [])
  }

  /** The text of all text chunks, in order. */
  function AllText(chunks: seq<Ansi.Chunk>): string
    decreases |chunks|
  {
    if chunks == [] then []
    else AllText(chunks[..|chunks| - 1]) + (match chunks[|chunks| - 1] case Text(t) => t case Colors(_) => [])
  }

  /** The texts of a list of records, in order. */
  function RecordText(records: seq<Record>): string
    decreases |records|
  {
    if records == [] then [] else RecordText(records[..|records| - 1]) + records[|records| - 1].1
  }

  lemma {:induction false} RecordTextAppend(a: seq<Record>, b: seq<Record>)
    ensures RecordText(a + b) == RecordText(a) + RecordText(b)
    decreases |b|
  {
    if b == [] {
      assert a + b == a;
    } else {
      assert (a + b)[..|a + b| - 1] == a + b[..|b| - 1];
      RecordTextAppend(a, b[..|b| - 1]);
    }
  }

  /** After a prefix, the flushed texts followed by the pending text are the
      prefix's text. */
  lemma {:induction false} GroupPrefixText(chunks: seq<Ansi.Chunk>)
    ensures var (p, out) := GroupPrefix(chunks);
      RecordText(out) + (if p.text.Some? then p.text.value else []) == AllText(chunks)
    decreases |chunks|
  {
    if chunks != [] {
      var init := chunks[..|chunks| - 1];
      GroupPrefixText(init);
      var (p, out) := GroupPrefix(init);
      var (q, flushed) := GroupStep(p, chunks[|chunks| - 1]);
      RecordTextAppend(out, flushed);
      assert RecordText([]) == [];
      if flushed != [] {
        assert flushed[..0] == [];
      }
    }
  }

  /** Every piece of text is written exactly once, in order. */
  lemma RecordsKeepText(chunks: seq<Ansi.Chunk>)
    ensures RecordText(Records(chunks)) == AllText(chunks)
  {
    GroupPrefixText(chunks);
    var (p, out) := GroupPrefix(chunks);
    if p.text.Some? {
      var last := [(p.colors.GetOr([]), p.text.value)];
      RecordTextAppend(out, last);
      assert last[..0] == [];
    } else {
      assert out + [] == out;
    }
  }

  /** Without colour codes, all the text forms one record with no
      colours. */
  lemma {:induction false} GroupPrefixPlain(chunks: seq<Ansi.Chunk>)
    requires forall i :: 0 <= i < |chunks| ==> chunks[i].Text?
    ensures GroupPrefix(chunks).1 == [] && GroupPrefix(chunks).0.colors.None?
    ensures GroupPrefix(chunks).0.text.Some? <==> chunks != []
    decreases |chunks|
  {
    if chunks != [] {
      GroupPrefixPlain(chunks[..|chunks| - 1]);
    }
  }

  lemma RecordsPlain(chunks: seq<Ansi.Chunk>)
    requires chunks != [] && forall i :: 0 <= i < |chunks| ==> chunks[i].Text?
    ensures Records(chunks) == [([], AllText(chunks))]
  {
    GroupPrefixPlain(chunks);
    GroupPrefixText(chunks);
    var (p, out) := GroupPrefix(chunks);
    assert out == [] && RecordText(out) == [];
    assert p.text.value == AllText(chunks);
  }

  /** `GroupPrefix` one chunk further. */
  lemma GroupPrefixSnoc(init: seq<Ansi.Chunk>, c: Ansi.Chunk)
    ensures GroupPrefix(init + [c])
         == (GroupStep(GroupPrefix(init).0, c).0, GroupPrefix(init).1 + GroupStep(GroupPrefix(init).0, c).1)
  {
    assert (init + [c])[..|init|] == init;
  }

  /** Text before the first colour map is written under that map's
      colours, as one record. */
  lemma LeadingTextTakesFirstColors(pre: seq<Ansi.Chunk>, m: Ansi.ColorMap)
    requires pre != [] && forall i :: 0 <= i < |pre| ==> pre[i].Text?
    ensures Records(pre + [Ansi.Colors(m)]) == [(m, AllText(pre))]
  {
    assert RecordText([]) == [];
    GroupPrefixPlain(pre);
    GroupPrefixText(pre);
    GroupPrefixSnoc(pre, Ansi.Colors(m));
    hide GroupPrefix, AllText, RecordText;
    var (p, out) := GroupPrefix(pre);
    assert p.text.value == AllText(pre);
    assert GroupPrefix(pre + [Ansi.Colors(m)]) == (Pending(Some(m), p.text), []);
  }

  /** Colours are pending exactly when a colour map has been read. */
  lemma {:induction false} GroupPrefixColors(chunks: seq<Ansi.Chunk>)
    ensures GroupPrefix(chunks).0.colors.Some? <==> exists i :: 0 <= i < |chunks| && chunks[i].Colors?
    decreases |chunks|
  {
    if chunks != [] {
      var init := chunks[..|chunks| - 1];
      GroupPrefixColors(init);
      if exists i :: 0 <= i < |init| && init[i].Colors? {
        var i :| 0 <= i < |init| && init[i].Colors?;
        assert chunks[i] == init[i];
      }
      if exists i :: 0 <= i < |chunks| && chunks[i].Colors? {
        var i :| 0 <= i < |chunks| && chunks[i].Colors?;
        if i < |init| {
          assert init[i] == chunks[i];
        }
      }
    }
  }

  /** A colour map flushes the pending text exactly when an earlier map has
      set colours and there is text pending; either way its colours become
      the pending ones. */
  lemma ColorMapFlushes(init: seq<Ansi.Chunk>, m: Ansi.ColorMap)
    ensures var (p, out) := GroupPrefix(init);
      && GroupPrefix(init + [Ansi.Colors(m)]).0.colors == Some(m)
      && (GroupPrefix(init + [Ansi.Colors(m)]).1 != out
          <==> (exists i :: 0 <= i < |init| && init[i].Colors?) && p.text.Some?)
  {
    GroupPrefixSnoc(init, Ansi.Colors(m));
    GroupPrefixColors(init);
    var out := GroupPrefix(init).1;
    assert out + [] == out;
  }

  /** A colour map with no text after it before the next map is never
      written. */
  lemma UnusedColorsDropped(m: Ansi.ColorMap, n: Ansi.ColorMap, b: string)
    ensures Records([Ansi.Colors(m), Ansi.Colors(n), Ansi.Text(b)]) == [(n, b)]
  {
    GroupPrefixSnoc([], Ansi.Colors(m));
    assert [] + [Ansi.Colors(m)] == [Ansi.Colors(m)];
    GroupPrefixSnoc([Ansi.Colors(m)], Ansi.Colors(n));
    assert [Ansi.Colors(m)] + [Ansi.Colors(n)] == [Ansi.Colors(m), Ansi.Colors(n)];
    GroupPrefixSnoc([Ansi.Colors(m), Ansi.Colors(n)], Ansi.Text(b));
    assert [Ansi.Colors(m), Ansi.Colors(n)] + [Ansi.Text(b)] == [Ansi.Colors(m), Ansi.Colors(n), Ansi.Text(b)];
  }

  /** Text between two colour maps is flushed by the second one under the
      first one's colours. */
  lemma TextFlushedByNextColors(m: Ansi.ColorMap, a: string, n: Ansi.ColorMap, b: string)
    ensures Records([Ansi.Colors(m), Ansi.Text(a), Ansi.Colors(n), Ansi.Text(b)]) == [(m, a), (n, b)]
  {
    GroupPrefixSnoc([], Ansi.Colors(m));
    assert [] + [Ansi.Colors(m)] == [Ansi.Colors(m)];
    GroupPrefixSnoc([Ansi.Colors(m)], Ansi.Text(a));
    assert [Ansi.Colors(m)] + [Ansi.Text(a)] == [Ansi.Colors(m), Ansi.Text(a)];
    GroupPrefixSnoc([Ansi.Colors(m), Ansi.Text(a)], Ansi.Colors(n));
    assert [Ansi.Colors(m), Ansi.Text(a)] + [Ansi.Colors(n)] == [Ansi.Colors(m), Ansi.Text(a), Ansi.Colors(n)];
    GroupPrefixSnoc([Ansi.Colors(m), Ansi.Text(a), Ansi.Colors(n)], Ansi.Text(b));
    assert [Ansi.Colors(m), Ansi.Text(a), Ansi.Colors(n)] + [Ansi.Text(b)]
        == [Ansi.Colors(m), Ansi.Text(a), Ansi.Colors(n), Ansi.Text(b)];
  }

  // ---------------------------------------------------------------------
  // Writing records
  // ---------------------------------------------------------------------

  /** A colour map as the attributes of a `text` element. */
  function ColorProps(m: Ansi.ColorMap): (r: Props)
    ensures |r| == |m|
    ensures forall i :: 0 <= i < |m| ==> r[i].0.PText? && r[i].1 == PNumber(m[i].1)
    ensures forall i :: 0 <= i < |m| ==> r[i].0 == PText(if m[i].0 == Ansi.Fg then "fg" else "bg")
  {
    if m == [] then []
    else [(PText(if m[0].0 == Ansi.Fg then "fg" else "bg"), PNumber(m[0].1))] + ColorProps(m[1..])
  }

  /** The attributes of a colour map are always accepted. */
  lemma ColorPropsAccepted(m: Ansi.ColorMap)
    ensures OpeningTag("text", ColorProps(m)).Success?
  {
    OpeningTagAccepted("text", ColorProps(m));
  }

  /** The properties of a `line` element. */
  function DateProps(date: string): Props
  {
    [(PText("date"), PText(date))]
  }

  lemma DatePropsAccepted(date: string)
    ensures OpeningTag("line", DateProps(date)).Success?
  {
    OpeningTagAccepted("line", DateProps(date));
  }

  /** The line a record is written as. */
  function RecordLine(level: nat, r: Record): string
  {
    ColorPropsAccepted(r.0);
    Line(INDENT, level, OpeningTag("text", ColorProps(r.0)).value + Escape(r.1) + ClosingTag("text"))
  }

  /** The lines a list of records is written as, at one level. */
  function RecordLineAt(level: nat): Record -> string
  {
    r => RecordLine(level, r)
  }

  function RecordLines(level: nat, records: seq<Record>): seq<string>
  {
    Seqs.Apply(RecordLineAt(level), records)
  }

  lemma RecordLinesSnoc(level: nat, records: seq<Record>, r: Record)
    ensures RecordLines(level, records + [r]) == RecordLines(level, records) + [RecordLine(level, r)]
  {
    Seqs.ApplyAppend(RecordLineAt(level), records, [r]);
    assert [r][..0] == [];
  }

  /** The outputter the log writes through: every line goes to the file,
      nothing is buffered. */
  predicate LogWriter(x: XmlTagOutputter)
    reads x
  {
    x.indent == INDENT && x.callback && !x.buffer && x.Valid()
  }

  /** The chunk-grouping loop of `from_server`: each record goes to the
      file as one `text` element, as soon as it is complete. */
  method WriteChunks(x: XmlTagOutputter, chunks: seq<Ansi.Chunk>)
    requires LogWriter(x)
    modifies x
    ensures LogWriter(x)
    ensures x.delivered == old(x.delivered) + RecordLines(x.indentLevel, Records(chunks))
    ensures x.indentLevel == old(x.indentLevel) && x.tagStack == old(x.tagStack)
  {
    var pendingText: Option<string> := None;
    var pendingColors: Option<Ansi.ColorMap> := None;
    for i := 0 to |chunks|
      invariant LogWriter(x)
      invariant x.indentLevel == old(x.indentLevel) && x.tagStack == old(x.tagStack)
      invariant GroupPrefix(chunks[..i]).0 == Pending(pendingColors, pendingText)
      invariant x.delivered == old(x.delivered) + RecordLines(x.indentLevel, GroupPrefix(chunks[..i]).1)
    {
      GroupPrefixAdvance(x.indentLevel, chunks, i);
      pendingColors, pendingText := GroupRound(x, pendingColors, pendingText, chunks[i]);
    }
    assert chunks[..|chunks|] == chunks;
    ghost var out := GroupPrefix(chunks).1;
    if pendingText.Some? {
      var colors := if pendingColors.Some? then pendingColors.value else [];
      RecordLinesSnoc(x.indentLevel, out, (colors, pendingText.value));
      WriteRecord(x, colors, pendingText.value);
      assert Records(chunks) == out + [(colors, pendingText.value)];
    } else {
      assert Records(chunks) == out + [] == out;
    }
  }

  lemma GroupPrefixAdvance(level: nat, chunks: seq<Ansi.Chunk>, i: nat)
    requires i < |chunks|
    ensures var (p, out) := GroupPrefix(chunks[..i]);
      var (q, flushed) := GroupStep(p, chunks[i]);
      && GroupPrefix(chunks[..i + 1]) == (q, out + flushed)
      && RecordLines(level, GroupPrefix(chunks[..i + 1]).1) == RecordLines(level, out) + RecordLines(level, flushed)
  {
    var (p, out) := GroupPrefix(chunks[..i]);
    var (q, flushed) := GroupStep(p, chunks[i]);
    GroupPrefixSnoc(chunks[..i], chunks[i]);
    assert chunks[..i + 1] == chunks[..i] + [chunks[i]];
    RecordLinesAppend(level, out, flushed);
  }

  /** One round of the loop over the chunks. */
  method GroupRound(x: XmlTagOutputter, pendingColors: Option<Ansi.ColorMap>, pendingText: Option<string>, chunk: Ansi.Chunk)
    returns (colors: Option<Ansi.ColorMap>, text: Option<string>)
    requires LogWriter(x)
    modifies x
    ensures LogWriter(x)
    ensures var (q, flushed) := GroupStep(Pending(pendingColors, pendingText), chunk);
      && Pending(colors, text) == q
      && x.delivered == old(x.delivered) + RecordLines(x.indentLevel, flushed)
    ensures x.indentLevel == old(x.indentLevel) && x.tagStack == old(x.tagStack)
  {
    colors, text := pendingColors, pendingText;
    match chunk
    case Colors(m) =>
      if colors.Some? && text.Some? {
        RecordLinesSnoc(x.indentLevel, [], (colors.value, text.value));
        WriteRecord(x, colors.value, text.value);
        text := None;
      }
      colors := Some(m);
    case Text(t) =>
      if text.None? {
        text := Some(t);
      } else {
        text := Some(text.value + t);
      }
  }

  lemma RecordLinesAppend(level: nat, a: seq<Record>, b: seq<Record>)
    ensures RecordLines(level, a + b) == RecordLines(level, a) + RecordLines(level, b)
  {
    Seqs.ApplyAppend(RecordLineAt(level), a, b);
  }

  /** `inline_tag("text", colors, text)`. */
  method WriteRecord(x: XmlTagOutputter, colors: Ansi.ColorMap, text: string)
    requires LogWriter(x)
    modifies x
    ensures LogWriter(x)
    ensures x.delivered == old(x.delivered) + [RecordLine(x.indentLevel, (colors, text))]
    ensures x.indentLevel == old(x.indentLevel) && x.tagStack == old(x.tagStack)
  {
    ColorPropsAccepted(colors);
    var _ := x.InlineTag("text", ColorProps(colors), text);
  }

  // ---------------------------------------------------------------------
  // Logging one line
  // ---------------------------------------------------------------------

  /** The line without its carriage returns and line feeds. */
  function StripLineEnds(s: string): string
  {
    Strings.Replace(Strings.Replace(s, "\r", ""), "\n", "")
  }

  /** Stripping removes exactly the carriage returns and line feeds. */
  lemma StripLineEndsKeeps(s: string, c: char)
    ensures c in StripLineEnds(s) <==> c in s && c != '\r' && c != '\n'
  {
    Strings.ReplaceCharMembership(s, '\r', "", c);
    Strings.ReplaceCharMembership(Strings.Replace(s, "\r", ""), '\n', "", c);
  }

  /** The chunks a line is logged as: the parse of its stripped text; on a
      parse error the escaped text `shown` as one chunk; a colour code that
      is not an integer is an error. */
  function LineChunks(text: string, shown: string): Result<seq<Ansi.Chunk>, Ansi.AnsiError>
  {
    var parsed := Ansi.Parse(StripLineEnds(text));
    if parsed.Success? then parsed
    else if Ansi.IsParsingError(parsed.error) then Success([Ansi.Text(shown)])
    else parsed
  }

  /** The opening `line` tag of a line logged at `date`. */
  function OpenLine(level: nat, date: string): string
  {
    DatePropsAccepted(date);
    Line(INDENT, level, OpeningTag("line", DateProps(date)).value)
  }

  /** A whole `line` element at depth `level`: the opening tag, the records
      one level deeper and the closing tag. */
  function LineElement(level: nat, date: string, chunks: seq<Ansi.Chunk>): seq<string>
  {
    [OpenLine(level, date)] + RecordLines(level + 1, Records(chunks)) + [Line(INDENT, level, ClosingTag("line"))]
  }

  /** The lines written for one server line at depth `level`: the whole
      `line` element, or only its opening tag when a colour code raised. */
  function LoggedLines(level: nat, date: string, text: string, shown: string): seq<string>
  {
    match LineChunks(text, shown)
    case Success(chunks) => LineElement(level, date, chunks)
    case Failure(_) => [OpenLine(level, date)]
  }

  // ---------------------------------------------------------------------
  // The filter
  // ---------------------------------------------------------------------

  /** Why the log file could not be created. */
  datatype FileError = FileExists | FileNotFound | PermissionDenied

  /** The exceptions the filter raises. */
  datatype LogError =
    | AlreadyOpen
    | AlreadyClosed
    | CreateFailed(reason: FileError)
    | BadParameter(error: Ansi.AnsiError)

  /** The module-level `open_logs` list. */
  class Registry {
    var openLogs: seq<LoggingFilter>

    constructor ()
      ensures openLogs == []
    {
      openLogs := [];
    }

    predicate Valid()
      reads this
    {
      Seqs.NoDuplicates(openLogs)
    }
  }

  /** The first opening line of every log file. */
  function LogHeader(): seq<string>
  {
    [Line(INDENT, 0, "<log>")]
  }

  class LoggingFilter {
    const filenameTemplate: string
    const connectionName: string
    var filename: Option<string>
    /** Whether `filehandle` is set. */
    var fileOpen: bool
    /** The writer of the open file; the lines it delivers are the file. */
    var xml: XmlTagOutputter?
    const registry: Registry

    /** An open log has a writer into its file with the `log` element open
        at the bottom of its stack. */
    predicate Valid()
      reads this, xml
    {
      && (fileOpen <==> xml != null)
      && (xml != null ==> LogWriter(xml) && |xml.tagStack| >= 1 && xml.tagStack[0] == "log")
    }

    /** `__init__`: the connection's name, when it has one, names the
        file. */
    constructor (connection: Option<string>, template: string, registry: Registry)
      ensures filenameTemplate == template && connectionName == connection.GetOr("client")
      ensures filename.None? && !fileOpen && xml == null && this.registry == registry
      ensures Valid()
    {
      filenameTemplate := template;
      connectionName := connection.GetOr("client");
      filename := None;
      fileOpen := false;
      xml := null;
      this.registry := registry;
    }

    /** `get_new_filename`. */
    function NewName(stamp: string): string
    {
      NewFilename(filenameTemplate, stamp, connectionName)
    }

    /** `open`: refuses an open log; otherwise picks a new name and creates
        the file (which may fail, as `createError` says), starts the `log`
        element and registers the filter once. */
    method Open(stamp: string, createError: Option<FileError>) returns (r: Result<(), LogError>)
      requires Valid() && registry.Valid()
      modifies this, registry
      ensures Valid() && registry.Valid()
      ensures old(fileOpen) ==> r == Failure(AlreadyOpen) && unchanged(this) && unchanged(registry)
      ensures !old(fileOpen) ==> filename == Some(NewName(stamp))
      ensures !old(fileOpen) && createError.Some? ==>
        r == Failure(CreateFailed(createError.value)) && !fileOpen && unchanged(registry)
      ensures !old(fileOpen) && createError.None? ==>
        && r.Success? && fileOpen && fresh(xml)
        && xml.delivered == LogHeader() && xml.tagStack == ["log"]
        && registry.openLogs == old(registry.openLogs) + (if this in old(registry.openLogs) then [] else [this])
        && this in registry.openLogs
    {
      if fileOpen {
        return Failure(AlreadyOpen);
      }
      filename := Some(NewName(stamp));
      if createError.Some? {
        return Failure(CreateFailed(createError.value));
      }
      var out := new XmlTagOutputter(INDENT);
      out.callback := true;
      out.buffer := false;
      assert Attributes([]) == Success("");
      assert "<" + "log" + "" + ">" == "<log>";
      var _ := out.OpenTag("log");
      fileOpen := true;
      xml := out;
      if this !in registry.openLogs {
        registry.openLogs := registry.openLogs + [this];
      }
      r := Success(());
    }
  
    /** `close`: refuses a closed log; otherwise closes every open element,
        drops the writer and unregisters the filter. */
    method Close() returns (r: Result<(), LogError>)
      requires Valid() && registry.Valid()
      modifies this, xml, registry
      ensures Valid() && registry.Valid()
      ensures !old(fileOpen) ==> r == Failure(AlreadyClosed) && unchanged(this) && unchanged(registry)
      ensures old(fileOpen) ==>
        && r.Success? && !fileOpen && filename == old(filename)
        && old(xml).tagStack == []
        && old(xml).delivered == old(xml.delivered) + ClosingLines(INDENT, old(xml.indentLevel), old(xml.tagStack))
        && registry.openLogs == Seqs.Without(old(registry.openLogs), this)
        && this !in registry.openLogs
    {
      if !fileOpen {
        return Failure(AlreadyClosed);
      }
      xml.CloseAll();
      fileOpen := false;
      xml := null;
      while this in registry.openLogs
        modifies registry
        invariant Seqs.Without(registry.openLogs, this) == Seqs.Without(old(registry.openLogs), this)
        decreases |registry.openLogs|
      {
        Seqs.WithoutRemoveFirst(registry.openLogs, this);
        registry.openLogs := Seqs.RemoveFirst(registry.openLogs, this);
      }
      Seqs.WithoutKeepsNoDuplicates(old(registry.openLogs), this);
      r := Success(());
    }

    /** `from_server`: opens the log if needed, logs the line inside a
        `line` element and passes the same line object on. A colour code
        that is not an integer raises after the `line` tag was opened. */
    method FromServer(line: TextLine, stamp: string, date: string, shown: string, createError: Option<FileError>)
      returns (r: Result<TextLine, LogError>)
      requires Valid() && registry.Valid()
      modifies this, xml, registry
      ensures Valid() && registry.Valid()
      ensures !old(fileOpen) && createError.Some? ==>
        r == Failure(CreateFailed(createError.value)) && !fileOpen && unchanged(registry)
      ensures old(fileOpen) ==> xml == old(xml) && filename == old(filename) && unchanged(registry)
      ensures !old(fileOpen) ==> filename == Some(NewName(stamp))
      ensures !old(fileOpen) && createError.None? ==>
        fresh(xml) && registry.openLogs == old(registry.openLogs) + (if this in old(registry.openLogs) then [] else [this])
      ensures old(fileOpen) || createError.None? ==>
        var (before, stack) := if old(fileOpen) then (old(xml.delivered), old(xml.tagStack)) else (LogHeader(), ["log"]);
        var chunks := LineChunks(line.text, shown);
        && fileOpen
        && xml.delivered == before + LoggedLines(|stack|, date, line.text, shown)
        && (chunks.Success? ==> r == Success(line) && xml.tagStack == stack)
        && (chunks.Failure? ==> r == Failure(BadParameter(chunks.error)) && xml.tagStack == stack + ["line"])
    {
      if !fileOpen {
        var outcome := Open(stamp, createError);
        if outcome.Failure? {
          return Failure(outcome.error);
        }
      }
      var failed := LogLine(xml, line, date, shown);
      if failed.Some? {
        return Failure(BadParameter(failed.value));
      }
      r := Success(line);
    }

    /** `from_client`: client lines are not logged. */
    method FromClient(line: TextLine) returns (r: TextLine)
      ensures r == line
    {
      r := line;
    }

    /** `server_connect`: a connection picks a new name and opens the log,
        a disconnection closes it. */
    method ServerConnect(connected: bool, stamp: string, createError: Option<FileError>) returns (r: Result<(), LogError>)
      requires Valid() && registry.Valid()
      modifies this, xml, registry
      ensures Valid() && registry.Valid()
      ensures connected ==> filename == Some(NewName(stamp))
      ensures connected && old(fileOpen) ==>
        r == Failure(AlreadyOpen) && xml == old(xml) && unchanged(xml) && unchanged(registry)
      ensures connected && !old(fileOpen) && createError.Some? ==>
        r == Failure(CreateFailed(createError.value)) && !fileOpen && unchanged(registry)
      ensures connected && !old(fileOpen) && createError.None? ==>
        && r.Success? && fileOpen && fresh(xml)
        && xml.delivered == LogHeader() && xml.tagStack == ["log"]
        && registry.openLogs == old(registry.openLogs) + (if this in old(registry.openLogs) then [] else [this])
        && this in registry.openLogs
      ensures !connected && !old(fileOpen) ==> r == Failure(AlreadyClosed) && unchanged(this) && unchanged(registry)
      ensures !connected && old(fileOpen) ==>
        && r.Success? && !fileOpen && filename == old(filename)
        && old(xml).tagStack == []
        && old(xml).delivered == old(xml.delivered) + ClosingLines(INDENT, old(xml.indentLevel), old(xml.tagStack))
        && registry.openLogs == Seqs.Without(old(registry.openLogs), this)
        && this !in registry.openLogs
    {
      if connected {
        filename := Some(NewName(stamp));
        r := Open(stamp, createError);
      } else {
        r := Close();
      }
    }
  }

  /** The body of `from_server` once the log is open: the `line` element
      with the line's records. A colour code that is not an integer is
      returned as the error, with the `line` element left open. */
  method LogLine(out: XmlTagOutputter, line: TextLine, date: string, shown: string) returns (failed: Option<Ansi.AnsiError>)
    requires LogWriter(out)
    modifies out
    ensures LogWriter(out)
    ensures out.delivered == old(out.delivered) + LoggedLines(old(out.indentLevel), date, line.text, shown)
    ensures failed.None? <==> LineChunks(line.text, shown).Success?
    ensures failed.Some? ==> failed.value == LineChunks(line.text, shown).error
    ensures out.tagStack == old(out.tagStack) + (if failed.Some? then ["line"] else [])
  {
    var parsed := Ansi.ParseAnsi(StripLineEnds(line.AsStr()));
    var chunks;
    if parsed.Failure? {
      if !Ansi.IsParsingError(parsed.error) {
        OpenLineTag(out, date);
        return Some(parsed.error);
      }
      chunks := [Ansi.Text(shown)];
    } else {
      chunks := parsed.value;
    }
    WriteLineElement(out, date, chunks);
    return None;
  }

  /** `open_tag("line", {'date': ...})`. */
  method OpenLineTag(out: XmlTagOutputter, date: string)
    requires LogWriter(out)
    modifies out
    ensures LogWriter(out)
    ensures out.delivered == old(out.delivered) + [OpenLine(old(out.indentLevel), date)]
    ensures out.indentLevel == old(out.indentLevel) + 1 && out.tagStack == old(out.tagStack) + ["line"]
  {
    DatePropsAccepted(date);
    var _ := out.OpenTag("line", DateProps(date));
  }

  /** A whole `line` element for the given chunks. */
  method WriteLineElement(out: XmlTagOutputter, date: string, chunks: seq<Ansi.Chunk>)
    requires LogWriter(out)
    modifies out
    ensures LogWriter(out)
    ensures out.delivered == old(out.delivered) + LineElement(old(out.indentLevel), date, chunks)
    ensures out.indentLevel == old(out.indentLevel) && out.tagStack == old(out.tagStack)
  {
    hide Escape, Records, RecordLines, OpenLine;
    ghost var before := out.delivered;
    var level := out.indentLevel;
    OpenLineTag(out, date);
    WriteChunks(out, chunks);
    ghost var records := RecordLines(level + 1, Records(chunks));
    assert out.delivered == before + [OpenLine(level, date)] + records;
    out.CloseTag();
  }

  /** The `line` element's opening tag carries the escaped date. */
  lemma DateLine(date: string)
    ensures OpeningTag("line", DateProps(date)) == Success("<line" + AttributeText("date", date) + ">")
  {
    var props := DateProps(date);
    assert props[..|props| - 1] == [];
    assert Attributes(props) == Success("" + AttributeText("date", date));
    assert "" + AttributeText("date", date) == AttributeText("date", date);
    assert "<" + "line" == "<line";
  }

  /** A record without colours is a bare `text` element. */
  lemma PlainRecordLine(level: nat, text: string)
    ensures RecordLine(level, ([], text)) == Line(INDENT, level, "<text>" + Escape(text) + "</text>")
  {
    assert ColorProps([]) == [];
    assert Attributes([]) == Success("");
    assert "<" + "text" + "" + ">" == "<text>";
  }

  /** A logged `<` reaches the file double-escaped, as `escape` writes it. */
  lemma PlainRecordAngle(level: nat)
    ensures RecordLine(level, ([], "<")) == Line(INDENT, level, "<text>&amp;lt;</text>")
  {
    hide *;
    PlainRecordLine(level, "<");
    EscapeSingle('<');
    EscapeCharLt();
    assert "<text>" + "&amp;lt;" + "</text>" == "<text>&amp;lt;</text>";
  }

  /** Text without escape codes or line ends parses as itself. */
  lemma PlainChunks(text: string, shown: string)
    requires text != [] && Ansi.ESC !in text && '\r' !in text && '\n' !in text
    ensures LineChunks(text, shown) == Success([Ansi.Text(text)])
  {
    Strings.ReplaceCharAbsent(text, '\r', "");
    Strings.ReplaceCharAbsent(text, '\n', "");
    Ansi.ParsePlain(text);
  }

  /** One plain text chunk makes a `line` element holding one `text`
      element with no colours. */
  lemma PlainElement(level: nat, date: string, text: string)
    ensures LineElement(level, date, [Ansi.Text(text)])
         == [ Line(INDENT, level, "<line" + AttributeText("date", date) + ">"),
              Line(INDENT, level + 1, "<text>" + Escape(text) + "</text>"),
              Line(INDENT, level, "</line>") ]
  {
    hide Escape, AttributeText;
    RecordsPlain([Ansi.Text(text)]);
    assert AllText([Ansi.Text(text)]) == text;
    var r: Record := ([], text);
    assert Records([Ansi.Text(text)]) == [] + [r];
    RecordLinesSnoc(level + 1, [], r);
    assert RecordLines(level + 1, []) == [];
    PlainRecordLine(level + 1, text);
    DateLine(date);
    assert ClosingTag("line") == "</line>";
  }

  /** A line without escape codes or line ends is logged as one `text`
      element with no colours, one level inside its `line` element. */
  lemma LoggedPlainLine(level: nat, date: string, text: string, shown: string)
    requires text != [] && Ansi.ESC !in text && '\r' !in text && '\n' !in text
    ensures LoggedLines(level, date, text, shown)
         == [ Line(INDENT, level, "<line" + AttributeText("date", date) + ">"),
              Line(INDENT, level + 1, "<text>" + Escape(text) + "</text>"),
              Line(INDENT, level, "</line>") ]
  {
    PlainChunks(text, shown);
    PlainElement(level, date, text);
  }
}
