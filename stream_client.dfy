/** `RagnaClient.sendMessage`: posts one message, reads the streamed
    response body chunk by chunk, splits each read into lines, and folds the
    `chunk` of every accepted `data: ` line into a single "model" message,
    publishing a snapshot of the exchange through `onMessage` as it goes.

    The network is a parameter: `Response` says what `fetch` and the reader
    deliver. `JSON.parse(payload).chunk` is the parameter `parse`, which
    answers `Some(chunk)` when the payload parses and carries a string
    `chunk`, and `None` when parsing throws or the field is missing. */
module StreamClient {
  import opened Common
  import opened JsString

  /** One turn of the conversation, `{ role, content }`. */
  datatype Msg = Msg(role: string, content: string)

  const UserRole: string := "user"
  /** The role the client gives the reply it assembles. */
  const ModelRole: string := "model"
  const DataPrefix: string := "data: "
  const DoneMarker: string := "[DONE]"
  const ConnectionFailed: string := "Stream connection failed"
  const Newline: char := '\n'

  /** What the transport delivers for one request: the request fails
      (`fetch` rejects), the response is not usable (`!res.ok || !res.body`),
      or a body whose successful `reader.read()` calls yield the decoded
      texts `received`, in order, after which the reader either reports
      `done` (`readError == None`) or rejects with `readError.value`. */
  datatype Response =
    | FetchRejected(reason: string)
    | NotOk
    | Body(received: seq<string>, readError: Option<string>)

  /** How the loop treats one line of a read. */
  datatype LineOutcome =
    | NotData        // does not start with `data: `: skipped
    | Done           // the payload is `[DONE]`: skipped with `continue`
    | Dropped        // does not parse, or its chunk is missing or empty
    | Chunk(text: string)  // a non-empty chunk, appended to the reply

  /** The payload of a `data: ` line: the first `data: ` removed, then
      trimmed. */
  function Payload(line: string): string {
    Trim(ReplaceFirst(line, DataPrefix, ""))
  }

  function ClassifyLine(line: string, parse: string -> Option<string>): LineOutcome {
    if !StartsWith(line, DataPrefix) then NotData
    else
      var payload := Payload(line);
      if payload == DoneMarker then Done
      else match parse(payload)
        case Some(c) => if c != "" then Chunk(c) else Dropped
        case None => Dropped
  }

  /** The chunk a line contributes: one string, or none. */
  function Accepted(o: LineOutcome): seq<string> {
    if o.Chunk? then [o.text] else []
  }

  predicate NonEmpty(cs: seq<string>) {
    forall k :: 0 <= k < |cs| ==> cs[k] != ""
  }

  /** The chunks accepted from a list of lines, in order. */
  function LineChunks(lines: seq<string>, parse: string -> Option<string>): (cs: seq<string>)
    ensures |cs| <= |lines|
    ensures NonEmpty(cs)
    decreases |lines|
  {
    if lines == [] then []
    else LineChunks(lines[..|lines| - 1], parse) + Accepted(ClassifyLine(lines[|lines| - 1], parse))
  }

  /** The chunks accepted from the texts of successive reads: each is split on
      its own, with no partial line carried over to the next read. */
  function ReadChunks(chunks: seq<string>, parse: string -> Option<string>): (cs: seq<string>)
    ensures NonEmpty(cs)
    decreases |chunks|
  {
    if chunks == [] then []
    else ReadChunks(chunks[..|chunks| - 1], parse) + LineChunks(Split(chunks[|chunks| - 1], Newline), parse)
  }

  /** The chunks joined in order. */
  function Concat(cs: seq<string>): string
    decreases |cs|
  {
    if cs == [] then "" else Concat(cs[..|cs| - 1]) + cs[|cs| - 1]
  }

  /** The two-message exchange the client publishes and returns: the user
      message followed by a copy of the model message with `content`. */
  function Exchange(message: string, content: string): seq<Msg> {
    [Msg(UserRole, message), Msg(ModelRole, content)]
  }

  /** One snapshot per accepted chunk, the k-th carrying the first k + 1
      chunks. */
  function Snapshots(message: string, cs: seq<string>): (snaps: seq<seq<Msg>>)
    ensures |snaps| == |cs|
    ensures forall k :: 0 <= k < |snaps| ==> |snaps[k]| == 2
    decreases |cs|
  {
    if cs == [] then [] else Snapshots(message, cs[..|cs| - 1]) + [Exchange(message, Concat(cs))]
  }

  /** A single line yields what its classification accepts. */
  lemma LineChunksOfOne(line: string, parse: string -> Option<string>)
    ensures LineChunks([line], parse) == Accepted(ClassifyLine(line, parse))
  {
    assert [line][..0] == [];
  }

  /** The empty piece after a final line ending yields nothing. */
  lemma EmptyLineSkipped(parse: string -> Option<string>)
    ensures LineChunks([""], parse) == []
  {
    LineChunksOfOne("", parse);
  }

  /** One more line adds what that line accepts. */
  lemma LineChunksSnoc(lines: seq<string>, line: string, parse: string -> Option<string>)
    ensures LineChunks(lines + [line], parse) == LineChunks(lines, parse) + Accepted(ClassifyLine(line, parse))
  {
    assert (lines + [line])[..|lines|] == lines;
  }

  lemma LineChunksStep(before: seq<string>, lines: seq<string>, j: nat, parse: string -> Option<string>)
    requires j < |lines|
    ensures before + LineChunks(lines[..j + 1], parse)
      == before + LineChunks(lines[..j], parse) + Accepted(ClassifyLine(lines[j], parse))
  {
    assert lines[..j + 1] == lines[..j] + [lines[j]];
    LineChunksSnoc(lines[..j], lines[j], parse);
  }

  lemma ReadChunksStep(chunks: seq<string>, i: nat, parse: string -> Option<string>)
    requires i < |chunks|
    ensures ReadChunks(chunks[..i + 1], parse)
      == ReadChunks(chunks[..i], parse) + LineChunks(Split(chunks[i], Newline), parse)
  {
    assert chunks[..i + 1] == chunks[..i] + [chunks[i]];
    ReadsFoldedIndependently(chunks[..i], chunks[i], parse);
  }

  /** Accepting chunk `c` publishes the exchange whose model content is
      the earlier content followed by `c`. */
  lemma AcceptStep(message: string, accepted: seq<string>, c: string)
    ensures Snapshots(message, accepted + [c])
      == Snapshots(message, accepted) + [Exchange(message, Concat(accepted) + c)]
  {
    ConcatStep(accepted, c);
    SnapshotsStep(message, accepted, c);
  }

  lemma ConcatStep(cs: seq<string>, c: string)
    ensures Concat(cs + [c]) == Concat(cs) + c
  {
    assert (cs + [c])[..|cs|] == cs;
  }

  lemma SnapshotsStep(message: string, cs: seq<string>, c: string)
    ensures Snapshots(message, cs + [c])
      == Snapshots(message, cs) + [Exchange(message, Concat(cs + [c]))]
  {
    assert (cs + [c])[..|cs|] == cs;
  }

  /** What `sendMessage` resolves or rejects with. */
  function Outcome(message: string, response: Response, parse: string -> Option<string>): Result<seq<Msg>> {
    match response
    case FetchRejected(reason) => Err(reason)
    case NotOk => Err(ConnectionFailed)
    case Body(received, readError) =>
      if readError.Some? then Err(readError.value)
      else Ok(Exchange(message, Concat(ReadChunks(received, parse))))
  }

  /** The arguments of the `onMessage` calls, in order. */
  function Published(stream: bool, message: string, response: Response, parse: string -> Option<string>): seq<seq<Msg>> {
    match response
    case Body(received, readError) =>
      if stream then Snapshots(message, ReadChunks(received, parse))
      else if readError.None? then [Exchange(message, Concat(ReadChunks(received, parse)))]
      else []
    case _ => []
  }

  class RagnaClient {
    const apiKey: string
    const projectId: string
    /** Whether `onMessage` is called per chunk (true) or once at the end. */
    const stream: bool

    constructor(apiKey: string, projectId: string, stream: bool)
      ensures this.apiKey == apiKey && this.projectId == projectId && this.stream == stream
    {
      this.apiKey := apiKey;
      this.projectId := projectId;
      this.stream := stream;
    }

    /** `sendMessage({ message, onMessage })`. `result` is what the promise
        settles with; `published` lists the `onMessage` arguments in call
        order. */
    method SendMessage(message: string, response: Response, parse: string -> Option<string>)
      returns (result: Result<seq<Msg>>, published: seq<seq<Msg>>)
      ensures result == Outcome(message, response, parse)
      ensures published == Published(stream, message, response, parse)
    {
      var messages := [Msg(UserRole, message)];
      var content := "";
      published := [];
      if response.FetchRejected? {
        return Err(response.reason), published;
      }
      if response.NotOk? {
        return Err(ConnectionFailed), published;
      }
      var chunks := response.received;
      var i := 0;
      while i < |chunks|
        invariant 0 <= i <= |chunks|
        invariant content == Concat(ReadChunks(chunks[..i], parse))
        invariant published == if stream then Snapshots(message, ReadChunks(chunks[..i], parse)) else []
      {
        ReadChunksStep(chunks, i, parse);
        content, published := ConsumeRead(message, chunks[i], parse, ReadChunks(chunks[..i], parse), content, published);
        i := i + 1;
      }
      assert chunks[..|chunks|] == chunks;
      if response.readError.Some? {
        return Err(response.readError.value), published;
      }
      messages := messages + [Msg(ModelRole, content)];
      assert messages == Exchange(message, Concat(ReadChunks(chunks, parse)));
      if !stream {
        published := [messages];
      }
      result := Ok(messages);
    }

    /** The body of the read loop for one read: split its text on newlines
        and fold every accepted chunk into `content`, publishing the
        exchange after each one in stream mode. `before` are the chunks
        accepted from earlier reads. */
    method ConsumeRead(message: string, text: string, parse: string -> Option<string>,
                       ghost before: seq<string>, content0: string, published0: seq<seq<Msg>>)
      returns (content: string, published: seq<seq<Msg>>)
      requires content0 == Concat(before)
      requires published0 == if stream then Snapshots(message, before) else []
      ensures content == Concat(before + LineChunks(Split(text, Newline), parse))
      ensures published
        == if stream then Snapshots(message, before + LineChunks(Split(text, Newline), parse)) else []
    {
      var lines := Split(text, Newline);
      content, published := content0, published0;
      ghost var accepted := before;
      assert lines[..0] == [];
      for j := 0 to |lines|
        invariant accepted == before + LineChunks(lines[..j], parse)
        invariant content == Concat(accepted)
        invariant stream ==> published == Snapshots(message, accepted)
        invariant !stream ==> published == []
      {
        LineChunksStep(before, lines, j, parse);
        var outcome := ClassifyLine(lines[j], parse);
        if outcome.Chunk? {
          ConcatStep(accepted, outcome.text);
          AcceptStep(message, accepted, outcome.text);
          content := content + outcome.text;
          accepted := accepted + [outcome.text];
          if stream {
            published := published + [Exchange(message, content)];
          }
        }
      }
      assert lines[..|lines|] == lines;
    }
  }

  // ---------------------------------------------------------------------
  // Properties of the line classification

  /** The payload of `data: ` followed by `rest` is `rest` trimmed. */
  lemma PayloadOfDataLine(rest: string)
    ensures StartsWith(DataPrefix + rest, DataPrefix)
    ensures Payload(DataPrefix + rest) == Trim(rest)
  {
    var line := DataPrefix + rest;
    assert line[..|DataPrefix|] == DataPrefix;
    assert line[|DataPrefix|..] == rest;
    assert ReplaceFirst(line, DataPrefix, "") == "" + rest == rest;
  }

  /** A line that does not start with `data: ` contributes nothing, whatever
      follows; in particular indented `data: ` lines are skipped too. */
  lemma OtherLinesSkipped(line: string, parse: string -> Option<string>)
    requires !StartsWith(line, DataPrefix)
    ensures ClassifyLine(line, parse) == NotData
    ensures Accepted(ClassifyLine(line, parse)) == []
  {
  }

  /** A `data: ` line indented by any white space is not a candidate. */
  lemma IndentedDataLineSkipped(w: string, rest: string, parse: string -> Option<string>)
    requires w != [] && AllWhiteSpace(w)
    ensures ClassifyLine(w + DataPrefix + rest, parse) == NotData
  {
    assert (w + DataPrefix + rest)[0] == w[0];
    assert !IsWhiteSpace(DataPrefix[0]);
  }

  /** White space around the payload, such as the `\r` of a CRLF line
      ending, makes no difference to how a `data: ` line is classified. */
  lemma PaddedPayloadSameOutcome(w1: string, rest: string, w2: string, parse: string -> Option<string>)
    requires AllWhiteSpace(w1) && AllWhiteSpace(w2)
    ensures ClassifyLine(DataPrefix + w1 + rest + w2, parse) == ClassifyLine(DataPrefix + rest, parse)
  {
    var padded := DataPrefix + (w1 + rest + w2);
    assert DataPrefix + w1 + rest + w2 == padded;
    PayloadOfDataLine(w1 + rest + w2);
    PayloadOfDataLine(rest);
    TrimIgnoresPadding(w1, rest, w2);
    assert Payload(padded) == Payload(DataPrefix + rest);
  }

  lemma CarriageReturnStripped(rest: string, parse: string -> Option<string>)
    ensures ClassifyLine(DataPrefix + rest + "\r", parse) == ClassifyLine(DataPrefix + rest, parse)
  {
    assert DataPrefix + [] + rest + "\r" == DataPrefix + rest + "\r";
    PaddedPayloadSameOutcome([], rest, "\r", parse);
  }

  lemma DoneMarkerIsTrimmed()
    ensures Trim(DoneMarker) == DoneMarker
  {
    assert IsTrimmed(DoneMarker) by {
      assert DoneMarker[0] == '[' && DoneMarker[|DoneMarker| - 1] == ']';
    }
    assert [] + DoneMarker + [] == DoneMarker;
    TrimOfPadded([], DoneMarker, []);
  }

  /** `data: [DONE]` is recognised and skipped; it yields no chunk. */
  lemma DoneLineSkipped(parse: string -> Option<string>)
    ensures ClassifyLine(DataPrefix + DoneMarker, parse) == Done
    ensures Accepted(ClassifyLine(DataPrefix + DoneMarker, parse)) == []
  {
    PayloadOfDataLine(DoneMarker);
    DoneMarkerIsTrimmed();
  }

  /** A payload that does not parse, or parses without a non-empty chunk,
      is dropped without effect. */
  lemma MalformedPayloadDropped(line: string, parse: string -> Option<string>)
    requires StartsWith(line, DataPrefix) && Payload(line) != DoneMarker
    requires parse(Payload(line)).None? || parse(Payload(line)) == Some("")
    ensures ClassifyLine(line, parse) == Dropped
    ensures Accepted(ClassifyLine(line, parse)) == []
  {
  }

  /** A line is accepted exactly when it starts with `data: `, its payload
      is not `[DONE]` and parses to a non-empty chunk, which is what it
      contributes. */
  lemma AcceptedLine(line: string, parse: string -> Option<string>, c: string)
    ensures ClassifyLine(line, parse) == Chunk(c)
      <==> StartsWith(line, DataPrefix) && Payload(line) != DoneMarker
           && parse(Payload(line)) == Some(c) && c != ""
  {
  }

  // ---------------------------------------------------------------------
  // Folding lines and reads

  lemma {:induction false} LineChunksAppend(a: seq<string>, b: seq<string>, parse: string -> Option<string>)
    ensures LineChunks(a + b, parse) == LineChunks(a, parse) + LineChunks(b, parse)
    decreases |b|
  {
    if b == [] {
      assert a + b == a;
    } else {
      var init, last := b[..|b| - 1], b[|b| - 1];
      assert b == init + [last];
      assert a + b == (a + init) + [last];
      calc {
        LineChunks(a + b, parse);
        { LineChunksSnoc(a + init, last, parse); }
        LineChunks(a + init, parse) + Accepted(ClassifyLine(last, parse));
        { LineChunksAppend(a, init, parse); }
        LineChunks(a, parse) + LineChunks(init, parse) + Accepted(ClassifyLine(last, parse));
        { LineChunksSnoc(init, last, parse); }
        LineChunks(a, parse) + LineChunks(b, parse);
      }
    }
  }

  /** Removing a line that is not accepted changes nothing: non-data lines,
      `[DONE]` and malformed payloads leave the fold as it was. */
  lemma SkippedLineChangesNothing(a: seq<string>, line: string, b: seq<string>, parse: string -> Option<string>)
    requires !ClassifyLine(line, parse).Chunk?
    ensures LineChunks(a + [line] + b, parse) == LineChunks(a + b, parse)
  {
    assert LineChunks([line], parse) == [] by {
      assert [line][..0] == [];
    }
    calc {
      LineChunks(a + [line] + b, parse);
      { LineChunksAppend(a + [line], b, parse); }
      LineChunks(a + [line], parse) + LineChunks(b, parse);
      { LineChunksAppend(a, [line], parse); }
      LineChunks(a, parse) + [] + LineChunks(b, parse);
      { assert LineChunks(a, parse) + [] == LineChunks(a, parse); }
      LineChunks(a, parse) + LineChunks(b, parse);
      { LineChunksAppend(a, b, parse); }
      LineChunks(a + b, parse);
    }
  }

  /** `[DONE]` does not end processing: the lines after it are folded as
      if it were not there. */
  lemma DoneDoesNotStop(a: seq<string>, b: seq<string>, parse: string -> Option<string>)
    ensures LineChunks(a + [DataPrefix + DoneMarker] + b, parse)
      == LineChunks(a, parse) + LineChunks(b, parse)
  {
    DoneLineSkipped(parse);
    SkippedLineChangesNothing(a, DataPrefix + DoneMarker, b, parse);
    LineChunksAppend(a, b, parse);
  }

  lemma {:induction false} ReadChunksAppend(a: seq<string>, b: seq<string>, parse: string -> Option<string>)
    ensures ReadChunks(a + b, parse) == ReadChunks(a, parse) + ReadChunks(b, parse)
    decreases |b|
  {
    if b != [] {
      var n := |b|;
      assert (a + b)[..|a + b| - 1] == a + b[..n - 1];
      assert (a + b)[|a + b| - 1] == b[n - 1];
      ReadChunksAppend(a, b[..n - 1], parse);
    } else {
      assert a + b == a;
    }
  }

  /** A read is split on its own: the chunks of a read sequence are those
      of each read, in order, whatever an earlier read contained. */
  lemma ReadsFoldedIndependently(chunks: seq<string>, text: string, parse: string -> Option<string>)
    ensures ReadChunks(chunks + [text], parse)
      == ReadChunks(chunks, parse) + LineChunks(Split(text, Newline), parse)
  {
    assert (chunks + [text])[..|chunks|] == chunks;
  }

  /** The chunks of a single read are those of its lines. */
  lemma OneRead(text: string, parse: string -> Option<string>)
    ensures ReadChunks([text], parse) == LineChunks(Split(text, Newline), parse)
  {
    ReadsFoldedIndependently([], text, parse);
    assert [] + [text] == [text];
  }

  /** The chunks of two reads are those of the first, then those of the
      second. */
  lemma TwoReads(t1: string, t2: string, parse: string -> Option<string>)
    ensures ReadChunks([t1, t2], parse)
      == LineChunks(Split(t1, Newline), parse) + LineChunks(Split(t2, Newline), parse)
  {
    OneRead(t1, parse);
    ReadsFoldedIndependently([t1], t2, parse);
    assert [t1] + [t2] == [t1, t2];
  }

  /** A read holding one line and its line ending yields what that line
      yields: the empty piece after the ending is skipped. */
  lemma TerminatedLine(line: string, parse: string -> Option<string>)
    requires Newline !in line
    ensures LineChunks(Split(line + "\n", Newline), parse) == Accepted(ClassifyLine(line, parse))
  {
    SplitAfterPiece(line, Newline, "");
    assert line + "\n" == line + [Newline] + "";
    assert Split("", Newline) == [""];
    LineChunksOfOne(line, parse);
    EmptyLineSkipped(parse);
    LineChunksAppend([line], [""], parse);
    assert [line] + [""] == [line, ""];
  }

  lemma {:induction false} ConcatAppend(a: seq<string>, b: seq<string>)
    ensures Concat(a + b) == Concat(a) + Concat(b)
    decreases |b|
  {
    if b == [] {
      assert a + b == a;
    } else {
      var n := |b|;
      assert (a + b)[..|a + b| - 1] == a + b[..n - 1];
      assert (a + b)[|a + b| - 1] == b[n - 1];
      ConcatAppend(a, b[..n - 1]);
    }
  }

  /** The content after more non-empty chunks strictly extends the content
      before them. */
  lemma ConcatGrows(cs: seq<string>, i: nat, j: nat)
    requires i < j <= |cs| && NonEmpty(cs)
    ensures Concat(cs[..i]) < Concat(cs[..j])
  {
    assert cs[..j] == cs[..i] + cs[i..j];
    ConcatAppend(cs[..i], cs[i..j]);
    assert cs[i..j] == cs[i..j - 1] + [cs[j - 1]];
    ConcatAppend(cs[i..j - 1], [cs[j - 1]]);
    assert [cs[j - 1]][..0] == [];
    assert cs[j - 1] != "";
  }

  lemma {:induction false} SnapshotAt(message: string, cs: seq<string>, k: nat)
    requires k < |cs|
    ensures Snapshots(message, cs)[k] == Exchange(message, Concat(cs[..k + 1]))
    decreases |cs|
  {
    if k < |cs| - 1 {
      SnapshotAt(message, cs[..|cs| - 1], k);
      assert cs[..|cs| - 1][..k + 1] == cs[..k + 1];
    } else {
      assert cs[..k + 1] == cs;
    }
  }

  // ---------------------------------------------------------------------
  // What sendMessage publishes and returns

  /** The final content is the in-order concatenation of the chunks of all
      accepted lines of all reads. */
  lemma ResolvedContent(message: string, chunks: seq<string>, parse: string -> Option<string>)
    ensures Outcome(message, Body(chunks, None), parse)
      == Ok([Msg(UserRole, message), Msg(ModelRole, Concat(ReadChunks(chunks, parse)))])
  {
  }

  /** In stream mode there is one `onMessage` call per accepted chunk; each
      carries the user turn and the model turn so far; the published
      contents grow strictly, and the last equals the resolved content. A
      failing read keeps what was published before it. */
  lemma StreamPublication(message: string, response: Response, parse: string -> Option<string>)
    requires response.Body?
    ensures var snaps := Published(true, message, response, parse);
      var cs := ReadChunks(response.received, parse);
      |snaps| == |cs|
      && (forall k :: 0 <= k < |snaps| ==> snaps[k] == Exchange(message, Concat(cs[..k + 1])))
      && (forall i, j :: 0 <= i < j < |snaps| ==> snaps[i][1].content < snaps[j][1].content)
      && (response.readError.None? && |snaps| > 0
          ==> snaps[|snaps| - 1] == Outcome(message, response, parse).value)
  {
    var cs := ReadChunks(response.received, parse);
    SnapshotsGrow(message, cs);
    if cs != [] {
      LastSnapshot(message, cs);
    }
  }

  /** The k-th snapshot is the exchange with the first k + 1 chunks, and
      the model contents of the snapshots grow strictly. */
  lemma SnapshotsGrow(message: string, cs: seq<string>)
    requires NonEmpty(cs)
    ensures forall k :: 0 <= k < |cs| ==> Snapshots(message, cs)[k] == Exchange(message, Concat(cs[..k + 1]))
    ensures var snaps := Snapshots(message, cs);
      forall i, j :: 0 <= i < j < |snaps| ==> snaps[i][1].content < snaps[j][1].content
  {
    forall k | 0 <= k < |cs| ensures Snapshots(message, cs)[k] == Exchange(message, Concat(cs[..k + 1])) {
      SnapshotAt(message, cs, k);
    }
    var snaps: seq<seq<Msg>> := Snapshots(message, cs);
    forall i, j | 0 <= i < j < |snaps| ensures snaps[i][1].content < snaps[j][1].content {
      ConcatGrows(cs, i + 1, j + 1);
    }
  }

  lemma LastSnapshot(message: string, cs: seq<string>)
    requires cs != []
    ensures Snapshots(message, cs)[|cs| - 1] == Exchange(message, Concat(cs))
  {
    SnapshotAt(message, cs, |cs| - 1);
    assert cs[..|cs|] == cs;
  }

  /** Without streaming, `onMessage` is called once, with the resolved
      value, and only when the body was read to the end. */
  lemma BufferedPublication(message: string, response: Response, parse: string -> Option<string>)
    ensures Published(false, message, response, parse)
      == if Outcome(message, response, parse).Ok? then [Outcome(message, response, parse).value] else []
  {
  }

  /** A failed request or an unusable response rejects before anything is
      published. */
  lemma RejectedBeforePublishing(stream: bool, message: string, response: Response, parse: string -> Option<string>)
    requires !response.Body?
    ensures Published(stream, message, response, parse) == []
    ensures Outcome(message, response, parse).Err?
    ensures response.NotOk? ==> Outcome(message, response, parse) == Err(ConnectionFailed)
  {
  }

  /** Every message the client publishes or returns has role "user" or
      "model"; it never produces an "assistant" turn. */
  lemma OnlyUserAndModelRoles(stream: bool, message: string, response: Response, parse: string -> Option<string>)
    ensures forall s, m :: (s in Published(stream, message, response, parse) && m in s)
                           ==> (m.role == UserRole || m.role == ModelRole)
    ensures Outcome(message, response, parse).Ok?
      ==> (forall m :: m in Outcome(message, response, parse).value ==> (m.role == UserRole || m.role == ModelRole))
  {
    if response.Body? && stream {
      var cs := ReadChunks(response.received, parse);
      forall s, m | s in Published(stream, message, response, parse) && m in s
        ensures m.role == UserRole || m.role == ModelRole
      {
        var k :| 0 <= k < |cs| && Snapshots(message, cs)[k] == s;
        SnapshotAt(message, cs, k);
      }
    }
  }
}
