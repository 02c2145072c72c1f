# tcphydra in Dafny

A model of tcphydra, a line-oriented TCP multiplexer for MUD clients. One
connection to a game server (a *remote server*) is shared by any number of
user connections (*local clients*). Plugins, called *filters*, see every line
that passes and may rewrite it, log it or remember it. The model covers:

- **Connections** (`proxy.dfy`, `framing.dfy`, `utf8.dfy`). The line-buffering socket
  container is the class `Proxy.LineBuffer`. It holds a text send buffer, a
  byte send buffer and a byte receive buffer. It frames lines at the newline,
  encodes and decodes UTF-8, and writes to or reads from a non-blocking
  socket (`Proxy.Socket`). `RemoteServer` fans server lines out to its
  subscribers. `LocalClient` routes user lines to the server it subscribes
  to. The separator loop is modelled as written, including its early stop.
  Its stale-index test ends the loop while a separator is still buffered
  (`Framing.FrameLeftover`, `Framing.FrameStopsEarlyExample`).
- **ANSI colour decoding** (`ansi.dfy`). `parse_ANSI` is modelled as a
  character-level state machine. It turns text with SGR escape sequences into
  text chunks and colour maps, never two adjacent text chunks. Colour maps are ordered
  association lists, as Python's dict keeps insertion order.
- **XML writing** (`xmlwriter.dfy`). `XmlTagOutputter` writes one indented
  line per tag. It keeps a stack of open tags, and it hands each line to a
  callback, to a buffer or to both.
- **Filters**:
  - the XML logger (`xlogs.dfy`): the open/close state machine, the
    `open_logs` registry, file-name templates, and the grouping of decoded
    chunks into `text` elements;
  - scrollback (`scrollback.dfy`): bounded histories per server, and recall;
  - the curly-quote straightener (`no_curly_quotes.dfy`);
  - the say-quote stripper (`say_no_end_quotes.dfy`);
  - the test filter (`test_filter.dfy`).
- **The line object** handed to filters is `TextLines.TextLine`.

Python exceptions become `Result` or `Option` outcomes:
`AssertionError`, `ValueError`, `IndexError`, `ANSIParsingError` and file
creation errors. Anything outside the program becomes a parameter: the clock,
the file system's answer to creating a file, and what the kernel accepts on a
socket.

The `escape` routine of the XML writer double-escapes `<` and `>` (see
Findings). The model keeps `escape` as written, and the writer and the log
filter use it, so their output carries the double escaping as the program
writes it (`XLogs.PlainRecordAngle`). The corrected escaping is defined beside
it, with the property the writer evidently intends proved about it.

## Model

| member | source | states |
|---|---|---|
| Proxy.AsLine | proxy.py:143 | the text followed by a line feed; its line feeds are those of the text plus the final one, so a text without one becomes exactly one line |
| Proxy.NoticesAreOneLine | proxy.py:143-164 | the closed-connection notice and the not-connected reply each hold one line feed, as their last character |
| Proxy.Socket.Write | proxy.py:68-71 | the kernel accepts the longest prefix it has room for and returns its length; a full buffer is the BlockingIOError |
| Proxy.Socket.Read | proxy.py:83-91 | at most `max` waiting bytes are returned, in order; empty bytes at end of stream; BlockingIOError on an empty open socket |
| Proxy.LineBuffer.constructor | proxy.py:27-38 | a new container has empty buffers, no socket and is not connected |
| Proxy.LineBuffer.Write | proxy.py:40-71 | refused when disconnected; otherwise the complete lines are encoded and moved to the byte buffer; without a socket that raises exactly when bytes wait to be sent; with one the socket takes what it can, and every byte written so far is sent, buffered or still in the text buffer, in order |
| Proxy.LineBuffer.CutSendLines | proxy.py:52-61 | the text send buffer is cut by the framing loop and the cut lines are appended, encoded, to the byte send buffer |
| Proxy.LineBuffer.Flush | proxy.py:65-71 | a non-empty byte buffer goes to the socket as far as it accepts; the rest stays buffered; nothing is lost |
| Proxy.LineBuffer.Read | proxy.py:73-117 | refused when disconnected, and when connected without a socket; otherwise the socket is drained and the framed lines are decoded; the lines plus the leftover re-encode to the old buffer plus the received bytes; each line ends in a newline; an undecodable line raises and keeps the rest buffered |
| Proxy.LineBuffer.Drain | proxy.py:80-91 | the loop reads every waiting byte into the receive buffer |
| Proxy.LineBuffer.CutRecvLines | proxy.py:106-117 | the receive buffer is framed; lines are decoded in order; the first undecodable line stops the read |
| Proxy.LineBuffer.AttachSocket | proxy.py:119-122 | the container is connected through the socket; buffers are kept |
| Proxy.LineBuffer.HandleDisconnect | proxy.py:124-126 | the socket is dropped and the container is disconnected; buffers are kept |
| Proxy.DecodeLinesEncode | proxy.py:110 | lines that decode re-encode to exactly the framed bytes |
| Proxy.ReadLinesConserve | proxy.py:106-117 | the decoded lines and the leftover make up the whole buffer, and each line ends in a newline |
| Proxy.RemoteServer.constructor | proxy.py:130-134 | a server starts with an empty, disconnected container, its address and no subscribers |
| Proxy.RemoteServer.Subscribe | proxy.py:145-147 | a client is appended only when not yet subscribed; the list stays free of duplicates |
| Proxy.RemoteServer.Unsubscribe | proxy.py:149-151 | every occurrence of the client is removed and the others keep their order |
| Proxy.RemoteServer.HandleData | proxy.py:136-138 | subscribers receive the line in list order; at the first disconnected one the loop raises, and the rest are untouched |
| Proxy.RemoteServer.HandleDisconnect | proxy.py:140-143 | the server's container disconnects and keeps its three buffers, then the closing notice goes to the subscribers as for any line |
| Proxy.LocalClient.constructor | proxy.py:154-158 | a client is connected through its socket and not subscribed |
| Proxy.LocalClient.HandleData | proxy.py:160-164 | a line goes to the subscribed server when it is connected, leaving the client untouched; otherwise the client is sent the not-connected notice and the server is left untouched; a disconnected client raises with nothing changed |
| Proxy.LocalClient.HandleDisconnect | proxy.py:166-170 | the client disconnects and keeps its three buffers, and is removed from its server's subscribers; the server's address is kept |
| Framing.FindSeparator | proxy.py:54-59 | the inner loop stops at the first separator, or at the end when there is none |
| Framing.CutLines | proxy.py:52-61 | the separator loop yields exactly the lines and leftover of the framing function |
| Framing.FrameAt | proxy.py:55-58 | one round cuts the text up to and including the first separator |
| Framing.FrameConserves | proxy.py:52-61 | the cut lines followed by the leftover are the original buffer |
| Framing.FrameCutsLines | proxy.py:52-61 | every cut line ends in the separator and holds no other |
| Framing.FrameWithoutSeparator | proxy.py:60-61 | without a separator nothing is cut |
| Framing.FrameLeftover | proxy.py:60-61 | a separator can remain in the leftover only when the stale index stopped the loop early |
| Framing.FrameContinues | proxy.py:52-61 | every line but the last was cut because what followed it was at least as long as it |
| Framing.FrameStopsEarlyExample | proxy.py:60 | `"ab\nc\n"` yields only `"ab\n"` and keeps `"c\n"` buffered |
| Utf8.EncodeChar | proxy.py:56 | one character encodes to one to four bytes |
| Utf8.DecodeEncode | proxy.py:110 | decoding an encoding gives the text back |
| Utf8.EncodeDecode | proxy.py:110 | strict decoding accepts only encodings: what decodes re-encodes to the same bytes |
| Utf8.EncodeAppend | proxy.py:56 | encoding distributes over concatenation |
| Utf8.NewlineByteOnlyFromNewline | proxy.py:17 | only a line feed contributes the newline byte |
| Utf8.DecodedLineEndsInNewline | proxy.py:109-110 | a decoded line cut at the newline byte ends in a line feed |
| Ansi.Put | ansi.py:86 | setting a colour changes only that key; a new key goes last, an existing one keeps its place |
| Ansi.Delete | ansi.py:107-109 | deleting a key removes only that key |
| Ansi.ApplySgr | ansi.py:81-109 | the parameter loop computes exactly the left-to-right application of the parameters |
| Ansi.ApplyCodesValid | ansi.py:84-98 | every recorded colour is one of the sixteen standard colours, each key at most once |
| Ansi.ApplyCodeEffect | ansi.py:84-109 | what one parameter does to one colour: set it, clear it or leave it |
| Ansi.ApplyCodesMeaning | ansi.py:82-109 | the parameters succeed exactly when each is an integer and none is 38 or 48; then each colour is the last one set after the last reset |
| Ansi.ResetClears | ansi.py:105-109 | a final SGR 0 leaves no colour |
| Ansi.ApplyCodesFailure | ansi.py:83-103 | the first refused parameter decides the error |
| Ansi.AccumulateJoins | ansi.py:28-32 | text joins a final text chunk or starts a new one |
| Ansi.AccumulateTwice | ansi.py:28-32 | text added in two pieces is the same as added at once |
| Ansi.RecordOnlyChanges | ansi.py:111-117 | unchanged colours record nothing; changed colours replace a final map or are appended |
| Ansi.Step | ansi.py:37-120 | each turn of the loop advances the cursor within the text |
| Ansi.FindFromMeaning | ansi.py:65 | `find` from the cursor gives a position where the pattern occurs, or cursor minus one exactly when it occurs nowhere after the cursor |
| Ansi.StringCommandEnd | ansi.py:63-69 | skipping a string command always advances the cursor within the text |
| Ansi.CsiStep | ansi.py:71-120 | a CSI sequence always advances the cursor within the text |
| Ansi.CsiParametersConsistent | ansi.py:82-117 | applying accepted SGR parameters keeps the last colours a valid colour map and the decoded line well formed |
| Strings.ParseIntSeparatorRefused | ansi.py:83 | `int()` does not skip the information separators: `"\x1c31"` is refused |
| Strings.ParseIntSkipsNoBreakSpace | ansi.py:83 | `int()` skips non-ASCII whitespace: `"\xa031"` reads as 31 |
| Ansi.EmptyParametersRefused | ansi.py:82-83 | `int('')` fails, so `ESC [ m` is refused as a non-integer |
| Ansi.ParseAnsi | ansi.py:11-122 | the loop computes exactly the state machine's result |
| Ansi.ParseWellFormed | ansi.py:28-32 | decoded lines never hold an empty text chunk or two adjacent text chunks, and every colour map has each colour at most once, within 0..15 |
| Ansi.ResetTwiceAdjacentMaps | ansi.py:51-53 | `ESC c ESC c` decodes to two adjacent empty maps: a reset appends its map whatever precedes it |
| Ansi.ParsePlain | ansi.py:37-46 | text without ESC decodes to itself as one chunk |
| Ansi.StringCommandAbsorbs | ansi.py:63-69 | once a string command starts, the rest of the line is dropped |
| Ansi.CsiWithoutTerminator | ansi.py:72-83 | a CSI with no `m` after it fails in `int('')`, never with "Unbounded CSI" |
| Ansi.CsiColon | ansi.py:78-79 | a colon among the parameters is refused |
| Ansi.RunShift | ansi.py:37-120 | decoding from a position depends only on the text from there |
| Ansi.UnknownEscapeDropped | ansi.py:56-59 | an unknown escape is dropped along with the character after it |
| Ansi.ResetAppendsEmptyMap | ansi.py:51-53 | `ESC c` appends an empty map but leaves the last colours as they were |
| XmlWriter.EscapeCharwise | xmlwriter.py:17-21 | `escape` as written works character by character, each character replaced as the chain of replacements does to it alone |
| XmlWriter.EscapeSafe | xmlwriter.py:17-21 | the output of `escape` holds no angle bracket, quote or line feed |
| XmlWriter.EscapeDoubleEscapes | xmlwriter.py:18-19 | an XML reader of the escaped `<` sees `&lt;`, not `<` |
| XmlWriter.EscapeAgreesWithoutAngles | xmlwriter.py:17-21 | without angle brackets the written and the corrected escapings agree |
| XmlWriter.EscapeAppend | xmlwriter.py:17-21 | `escape` distributes over concatenation |
| XmlWriter.EscapeEmpty | xmlwriter.py:17-21 | the empty text escapes to itself |
| XmlWriter.EscapeFixedCharwise | xmlwriter.py:17-21 | the corrected escaping works character by character |
| XmlWriter.EscapeFixedSafe | xmlwriter.py:17-21 | the corrected escaping holds no angle bracket, quote or line feed |
| XmlWriter.UnescapeEscapeFixed | xmlwriter.py:17-21 | an XML reader gets back the escaped text less its line feeds |
| XmlWriter.TagFromSpec | xmlwriter.py:40-55 | the loop builds exactly the opening tag of the properties, or refuses |
| XmlWriter.AttributesFailurePropagates | xmlwriter.py:46-51 | one refused property refuses the whole dictionary |
| XmlWriter.OpeningTagAccepted | xmlwriter.py:46-51 | the tag is built exactly when every key is a string and every value a string or an integer |
| XmlWriter.AttributesDelimited | xmlwriter.py:46-53 | the attributes hold two quotes per property and no angle bracket |
| XmlWriter.OpeningTagDelimited | xmlwriter.py:40-55 | a built tag starts with `<`, ends with `>`, holds one of each and two quotes per property |
| XmlWriter.XmlTagOutputter.constructor | xmlwriter.py:9-15 | a new writer is empty, at depth zero, buffering, with no callback |
| XmlWriter.XmlTagOutputter.Emit | xmlwriter.py:34-38 | a line goes to the callback when there is one and to the buffer when buffering |
| XmlWriter.XmlTagOutputter.Write | xmlwriter.py:23-38 | the text is emitted at the current indentation and followed by a line feed |
| XmlWriter.XmlTagOutputter.OpenTag | xmlwriter.py:57-61 | the opening tag is written, then the depth grows and the tag is pushed; a refused tag changes nothing |
| XmlWriter.XmlTagOutputter.CloseTag | xmlwriter.py:63-68 | the top tag is popped and closed one level shallower; an empty stack changes nothing |
| XmlWriter.XmlTagOutputter.CloseAll | xmlwriter.py:70-73 | every open tag is closed, topmost first, and the stack ends empty |
| XmlWriter.XmlTagOutputter.InlineTag | xmlwriter.py:75-79 | one line with the opening tag, the escaped content and the closing tag; depth unchanged |
| XmlWriter.ClosingLinesOrder | xmlwriter.py:70-73 | the j-th closing line closes the tag opened j-th from the top, at that tag's depth |
| XLogs.NewFilenameReplacesAll | plugins/xlogs.py:35-38 | every `DATE` becomes the stamp, then every `CONNECTION` of the result becomes the name |
| XLogs.NewFilenamePlain | plugins/xlogs.py:35-38 | a template without placeholders is used as it is |
| XLogs.RecordsKeepText | plugins/xlogs.py:112-136 | every text chunk is written exactly once, in order |
| XLogs.GroupPrefixText | plugins/xlogs.py:115-127 | the flushed texts followed by the pending text are the text read so far |
| XLogs.RecordsPlain | plugins/xlogs.py:123-136 | uncoloured text forms one record with no colours |
| XLogs.LeadingTextTakesFirstColors | plugins/xlogs.py:117-127 | any run of uncoloured text before the first colour map becomes one record under that map's colours |
| XLogs.GroupPrefixColors | plugins/xlogs.py:113-121 | colours are pending exactly when some colour map has been read |
| XLogs.ColorMapFlushes | plugins/xlogs.py:117-121 | every colour map becomes the pending colours, and it writes a record exactly when earlier colours are pending and text is pending |
| XLogs.UnusedColorsDropped | plugins/xlogs.py:117-121 | a colour map followed directly by another is never written |
| XLogs.TextFlushedByNextColors | plugins/xlogs.py:116-121 | text between two maps is flushed by the second under the first's colours |
| XLogs.ColorProps | plugins/xlogs.py:118 | a colour map becomes one integer attribute per colour, in order, named `fg` for the foreground and `bg` for the background |
| XLogs.ColorPropsAccepted | plugins/xlogs.py:118 | the writer always accepts a colour map |
| XLogs.DatePropsAccepted | plugins/xlogs.py:94 | the writer always accepts the date property |
| XLogs.GroupRound | plugins/xlogs.py:116-127 | one round updates the pending state as the grouping function says and writes the flushed record |
| XLogs.WriteChunks | plugins/xlogs.py:112-136 | the loop writes exactly the grouped records, each as one `text` line one level inside the `line` element |
| XLogs.WriteRecord | plugins/xlogs.py:118 | a record is written as one inline `text` element |
| XLogs.StripLineEndsKeeps | plugins/xlogs.py:100 | stripping removes exactly the carriage returns and line feeds |
| XLogs.LogLine | plugins/xlogs.py:94-138 | the `line` element is opened, its records written and the element closed; a non-integer colour code raises with the element still open |
| XLogs.OpenLineTag | plugins/xlogs.py:94 | the `line` element with its date is opened one level deeper |
| XLogs.WriteLineElement | plugins/xlogs.py:94-138 | a whole `line` element is written and the depth returns to its prior value |
| XLogs.DateLine | plugins/xlogs.py:94 | the `line` tag carries the escaped date |
| XLogs.PlainRecordLine | plugins/xlogs.py:133-136 | an uncoloured record is a bare `text` element |
| XLogs.PlainRecordAngle | plugins/xlogs.py:133-136 | a logged `<` is written as `&amp;lt;` inside the `text` element, as `escape` writes it |
| XLogs.PlainChunks | plugins/xlogs.py:100 | a line without escapes or line ends parses as itself |
| XLogs.PlainElement | plugins/xlogs.py:94-138 | one plain chunk makes a `line` element with one uncoloured `text` element |
| XLogs.LoggedPlainLine | plugins/xlogs.py:94-138 | a plain line is logged as three lines: opening tag, text element, closing tag |
| XLogs.Registry.constructor | plugins/xlogs.py:10 | the registry starts empty |
| XLogs.LoggingFilter.constructor | plugins/xlogs.py:13-28 | the connection's name names the file, or "client"; the filter starts closed |
| XLogs.LoggingFilter.Open | plugins/xlogs.py:40-72 | refused when open; otherwise a new name is chosen; a creation failure leaves the log closed; success starts the `log` element and registers the filter exactly once |
| XLogs.LoggingFilter.Close | plugins/xlogs.py:74-86 | refused when closed; otherwise every open element is closed into the file and the filter leaves the registry |
| XLogs.LoggingFilter.FromServer | plugins/xlogs.py:88-141 | the log opens on demand under a new file name, which is kept even when creating the file fails; an open log keeps its writer and file name; the line is logged inside one `line` element and the same line object is returned; depth returns to its prior value unless a colour code raised |
| XLogs.LoggingFilter.FromClient | plugins/xlogs.py:143-144 | client lines pass unlogged |
| XLogs.LoggingFilter.ServerConnect | plugins/xlogs.py:146-151 | a connection picks a new name and opens the log: refused with the writer untouched when already open, `CreateFailed` when the file cannot be created, otherwise a fresh writer holding the `log` header, registered once; a disconnection closes it: refused and nothing changes when already closed, otherwise the old writer's file gets exactly the closing lines of every open element, the file name is kept and the filter is unregistered |
| Scrollback.Append | plugins/scrollback.py:19 | an unbounded deque keeps every item; a bounded one keeps the newest `maxlen` items, the new one last |
| Scrollback.AppendCases | plugins/scrollback.py:19 | with room, or without a bound, the item is added; when full the oldest item is dropped |
| Scrollback.Histories.constructor | plugins/scrollback.py:6 | the histories start empty |
| Scrollback.MemoryFilter.constructor | plugins/scrollback.py:10-14 | the connection gets a fresh empty history of the given length, replacing any earlier one |
| Scrollback.MemoryFilter.FromServer | plugins/scrollback.py:16-21 | the line becomes the newest entry of its server's history and is passed on |
| Scrollback.NewMemoryFilter | plugins/scrollback.py:10-14 | a negative length is refused before the history is touched; otherwise the connection gets an empty history, without bound when the length is `None` |
| Scrollback.RecallReplies | plugins/scrollback.py:24-35 | every stored line, oldest first, then the done message; the missing message without a history |
| Scrollback.Lines | plugins/scrollback.py:27-31 | each stored line becomes one written line, in order |
| Scrollback.Recall | plugins/scrollback.py:24-35 | the loop sends exactly those replies and leaves the stored history as it was |
| NoCurlyQuotes.Straight | plugins/no_curly_quotes.py:7-18 | a curly mark becomes at most one ASCII character, and only the low double quote vanishes; others are kept |
| NoCurlyQuotes.TableMatchesStraight | plugins/no_curly_quotes.py:7-18 | the table maps exactly the curly marks, each as `Straight` says |
| NoCurlyQuotes.StraightenCharwise | plugins/no_curly_quotes.py:35-36 | replacing the table entries in turn acts character by character |
| NoCurlyQuotes.StraightenRemovesCurly | plugins/no_curly_quotes.py:35-36 | no curly mark survives |
| NoCurlyQuotes.StraightenPlain | plugins/no_curly_quotes.py:35-36 | text without curly marks is unchanged |
| NoCurlyQuotes.StraightenAscii | plugins/no_curly_quotes.py:35-36 | ASCII text is unchanged |
| NoCurlyQuotes.StraightenIdempotent | plugins/no_curly_quotes.py:35-36 | straightening twice is straightening once |
| NoCurlyQuotes.FromClient | plugins/no_curly_quotes.py:32-39 | the loop leaves the straightened text in the same line object |
| NoCurlyQuotes.FromServer | plugins/no_curly_quotes.py:29-30 | server lines pass untouched |
| SayNoEndQuotes.TrimQuotes | plugins/say_no_end_quotes.py:12-13 | trailing quotes are dropped; a text of nothing but quotes raises |
| SayNoEndQuotes.StripQuotes | plugins/say_no_end_quotes.py:9-15 | a line not starting with a quote is kept |
| SayNoEndQuotes.CollapseShape | plugins/say_no_end_quotes.py:11 | the collapsed text has no line feed and keeps a leading quote |
| SayNoEndQuotes.StripQuotesQuoted | plugins/say_no_end_quotes.py:10-14 | a quoted line fails exactly when nothing but quotes remains; otherwise the result is the text without trailing quotes plus a line feed |
| SayNoEndQuotes.StripQuotesIdempotent | plugins/say_no_end_quotes.py:10-14 | stripping a stripped line changes nothing, unless a carriage return precedes its line feed |
| SayNoEndQuotes.StripQuotesNotIdempotent | plugins/say_no_end_quotes.py:11 | a kept carriage return pairs with the added line feed on a second pass |
| SayNoEndQuotes.FromClient | plugins/say_no_end_quotes.py:9-15 | the line object holds the stripped text, or an empty line raises and nothing changes |
| SayNoEndQuotes.FromServer | plugins/say_no_end_quotes.py:6-7 | server lines pass untouched |
| TestFilter.Rewrite | plugins/test_filter.py:8-10 | an empty line raises; otherwise a leading `K` or `J` becomes `X` and any other line is kept; the length and the rest of the line are kept either way |
| TestFilter.RewriteIdempotent | plugins/test_filter.py:8-10 | rewriting a rewritten line changes nothing |
| TestFilter.FromServer | plugins/test_filter.py:5-12 | the same line object is returned holding the rewritten text |
| TextLines.TextLine.Set | plugins/no_curly_quotes.py:38 | the line holds exactly the new text |

## Left out

- Selectors, the `run` loop and the `servers`/`connections` indexes in proxy.py have no logic to model.
- The debug `print` of the byte buffer in `write`, and every `print` and `logging` call, are left out.
- `super().__init__(self)` and `super().handle_disconnect(self)` pass one argument too many and would raise `TypeError`. The model performs the evident base-class call instead.
- Socket I/O is a `Socket` object of the model. It holds the bytes sent, the send room, the waiting bytes and the end-of-stream flag. `setblocking` is implied.
- Only UTF-8 is modelled, as `ENCODING` fixes it. The byte storage and lossy decoding of the line object that filters receive are not part of this model. `TextLine` models only `as_str` and `set`.
- `inline_tag` is declared with a non-default parameter after a default one, which is a Python syntax error. The model takes the evident signature `(tag, props, content)`.
- xlogs: creating the directory (`os.makedirs`), opening, writing, flushing and closing the file are left out. The file is the writer's callback sink (`delivered`), and the outcome of creating it is the `createError` parameter.
- xlogs: `time.strftime` and `datetime.utcnow` are the `stamp` and `date` parameters. `server_connect` reads the clock twice (once for `filename`, once inside `open`). The model uses one stamp for both.
- xlogs: `repr(line.as_str())[1:-1]` needs Python's Unicode printability table. It is the `shown` parameter.
- xlogs: the `TypeError` for a chunk that is neither a dict nor a string cannot arise, because decoded chunks are typed.
- xlogs: a `ValueError` from a non-integer colour code is returned as `BadParameter`. The `line` element stays open, as in the source.
- Every plugin's `setup` calls a proxy registration API (`register_filter`, and for scrollback `register_command`) that is not part of this model.
- xlogs: `teardown` (plugins/xlogs.py:156-158), which closes every registered log, is not modelled; `LoggingFilter.Close` is. Reading the text (not executed), it iterates over `open_logs` while each `close` removes from that same list, so with three open logs the middle one is skipped and stays open.
- scrollback: `client.write_line`, `tell_ok` and `tell_err` are not part of this model. Recall returns the sequence of replies instead of sending them.
- scrollback: `deque(maxlen=n)` with a negative `n` raises `ValueError`. `NewMemoryFilter` returns it as a failure; the constructor itself takes an `Option<nat>`, where `None` is the unbounded deque.
- The connection `name` attribute is an `Option` passed to the `LoggingFilter` constructor. Neither connection class has one, so in the source the name is always "client".
- Strings.ParseInt: `int()` also accepts non-ASCII decimal digits (Arabic-Indic, fullwidth and the rest of Unicode category Nd). The model reads only ASCII digits, so such a colour code is `NotAnInteger` in `Ansi.ApplyCodes` and `XLogs.LogLine`. It skips the surrounding whitespace `int()` skips: every `str.isspace` character except `\x1c` to `\x1f`.
- SayNoEndQuotes.StripQuotesIdempotent: proved only when no carriage return precedes the final line feed. `SayNoEndQuotes.StripQuotesNotIdempotent` shows that the general claim fails.

## Findings

| source | as written | input that shows it | evidently intended | confidence | as-written member | corrected member |
|---|---|---|---|---|---|---|
| xmlwriter.py:18-19 | `<` and `>` are replaced by entities before `&` is replaced, so the `&` of `&lt;` is escaped again | `escape("<")` gives `&amp;lt;`, which an XML reader shows as `&lt;` | replace `&` first, so that a reader gets back the text (less line feeds) | high (proved; not executed) | XmlWriter.EscapeDoubleEscapes | XmlWriter.UnescapeEscapeFixed |
