# Ragna chat client: stream decoder and conversation state

This project models the two pieces of logic that sit between the network and
the React chat widget of the Ragna embeddable chat:

- **`RagnaClient.sendMessage`** (`src/client.js`). It posts the user's
  message and reads the streamed response body one read at a time. It splits
  each read on `"\n"` and keeps the lines that start with `data: `. For each
  such line it removes the prefix, trims the rest and skips `[DONE]`. It
  parses what is left as JSON and appends every non-empty `chunk` to the
  model turn. In stream mode it calls `onMessage` with `[user, model so far]`
  after every chunk. At the end it returns `[user, model]`; without
  streaming, it also passes that value to a single `onMessage` call.
- **`useRagnaChat`** (`src/useRagnaChat.js`). The hook holds `messages` and
  `isLoading`. Its `sendMessage` sets `isLoading`, appends the user turn and
  awaits the client. While it waits, it applies the `onMessage` updater: an
  array replaces the list, and a single message is appended unless it
  repeats the last `assistant` turn. When the call resolves it clears
  `isLoading`.

Modules:

- `common.dfy` (`Common`): `Option` and `Result`.
- `js_string.dfy` (`JsString`): the JavaScript string operations the decoder
  uses. These are `startsWith`, `replace` with a string pattern (the first
  occurrence only), `trim` with ECMAScript's white-space set, and `split` on
  one character. It also defines `Join` as the inverse of `split`.
- `stream_client.dfy` (`StreamClient`): the client.
  - `ClassifyLine` is the per-line step.
  - `LineChunks`, `ReadChunks`, `Concat`, `Snapshots`, `Outcome` and
    `Published` are specification functions.
  - Class `RagnaClient` has an imperative `SendMessage`: a loop over reads
    with an inner loop over lines (`ConsumeRead`). Its result and its list of
    `onMessage` arguments are proved equal to those specification functions.
    The lemmas then prove what the code promises about them.
- `chunk_json.dfy` (`ChunkJson`): a concrete decoder for the event shape the
  server sends, `{"chunk": "<text>"}`, with its round trip. It also holds
  examples worked out on the wire.
- `chat_hook.dfy` (`ChatHook`): the hook.
  - `Reduce` is the `onMessage` updater and `ApplyAll` its fold.
  - Class `RagnaChat` has the `messages` and `isLoading` fields and a ghost
    trace `views` of the state after each update.
  - Its `SendMessage` calls `RagnaClient.SendMessage` and applies what the
    client published.

The network is a parameter. A `Response` is one of three things:
`FetchRejected`, `NotOk` (which covers `!res.ok || !res.body`), or
`Body(received, readError)`. `received` lists the decoded texts of the
successful reads in order, and `readError` says whether the reader then
reports `done` or rejects. `JSON.parse(payload).chunk` is the parameter
`parse: string -> Option<string>`. A chunk counts as truthy when it is
`Some(c)` with `c != ""`; `None` covers a parse error and a missing chunk.
The `onMessage` calls are returned in order as the out-parameter
`published`. The hook applies them in that order.

### Behaviour of the code that a reader might not expect

Some of this behaviour may surprise a reader. The model follows the code
and proves what the code does:

- **No buffering across reads.** Every read is split on its own. A `data:`
  line cut by a read boundary becomes two partial lines, and its event is
  lost (`ChunkJson.SplitEventIsLost`). A reader might expect a partial last
  line to be carried over to the next read; the code does not do this.
- **`[DONE]` does not end the stream.** It is skipped with `continue`. Later
  lines and later reads are still folded in (`StreamClient.DoneDoesNotStop`).
  Only the end of the body ends the loop.
- **The model turn has role `"model"`, not `"assistant"`.** The hook's
  duplicate check looks for `"assistant"`, so it never matches anything the
  client produces (`ChatHook.ClientTakesReplaceBranch`,
  `ChatHook.ModelTurnNotDeduplicated`).
- **The duplicate check ignores the role of the incoming message.** It
  compares the incoming message's content with the last message, which must
  be an `assistant` turn (`ChatHook.DedupeIgnoresUpdateRole`). An array
  update is never checked for duplicates: it always replaces the list.
- **Earlier turns are replaced.** The client publishes only the current
  exchange. After the first publication, the hook's list is therefore just
  `[user, model]` (`ChatHook.ExchangeReplacesHistory`).
- **No model turn without a chunk.** In stream mode, a reply with no
  accepted chunk publishes nothing. The list then ends with the user turn and
  has no empty model turn (`ChatHook.NothingPublishedKeepsUserTurn`).
- **`isLoading` stays set on failure.** There is no `try`/`finally`, so a
  rejected client call leaves `isLoading` true
  (`ChatHook.RagnaChat.SendMessage`, `ChatHook.LoadingUntilResolved`).
- **Partial content after a failure.** After a failing read, stream mode
  keeps the content published so far. Without streaming nothing of the reply
  is shown (`ChatHook.FailedReadKeepsPartialContent`).

## Model

| member | source | states |
|---|---|---|
| `JsString.StartsWith` | src/client.js:34 | `startsWith`: the prefix is the first characters of the line. `StreamClient.PayloadOfDataLine` and `StreamClient.IndentedDataLineSkipped` state what it accepts and refuses. |
| `JsString.ReplaceFirst` | src/client.js:35 | `replace` with a string pattern, which rewrites only the first occurrence. `ReplaceFirstOccurrence` and `ReplaceFirstAbsent` characterise it. |
| `JsString.ReplaceFirstOccurrence` | src/client.js:35 | `replace` with a string pattern changes only the first occurrence: with i the least index where the pattern occurs, the result is the text before i, the replacement, and the text after the occurrence. |
| `JsString.ReplaceFirstAbsent` | src/client.js:35 | When the pattern occurs nowhere, `replace` returns the string unchanged. |
| `JsString.TrimStart` | src/client.js:35 | The leading half of `trim`: drops white space from the front. `TrimStartShape` and `TrimStartSkips` state its properties. |
| `JsString.TrimEnd` | src/client.js:35 | The trailing half of `trim`: drops white space from the end. `TrimEndShape` and `TrimEndSkips` state its properties. |
| `JsString.Trim` | src/client.js:35 | `trim` over ECMAScript's WhiteSpace and LineTerminator set. `TrimShape` and `TrimOfPadded` characterise it. |
| `JsString.TrimStartShape` | src/client.js:35 | `trimStart` gives a suffix of the line. It drops only white space, and what is left does not start with white space. |
| `JsString.TrimEndShape` | src/client.js:35 | `trimEnd` gives a prefix of the line. It drops only white space, and what is left does not end with white space. |
| `JsString.TrimShape` | src/client.js:35 | `trim` gives the slice between a white-space prefix and a white-space suffix, with no white space at either end. |
| `JsString.TrimStartSkips` | src/client.js:35 | A white-space prefix makes no difference to `trimStart`. |
| `JsString.TrimEndSkips` | src/client.js:35 | A white-space suffix makes no difference to `trimEnd`. |
| `JsString.TrimOfPadded` | src/client.js:35 | Trimming white space + t + white space gives exactly t when t has no white space at either end. This characterises `trim` uniquely. |
| `JsString.TrimmedUnchanged` | src/client.js:35 | `trim` leaves a string with no white space at its ends unchanged. |
| `JsString.TrimParts` | src/client.js:35 | Every string is white space, then its trimmed text, then white space. |
| `JsString.TrimIgnoresPadding` | src/client.js:35 | Extra white space on either side does not change the trimmed payload. |
| `JsString.TrimDropsCarriageReturn` | src/client.js:35 | A trailing `\r` is removed by the trim. |
| `JsString.TrimIdempotent` | src/client.js:35 | Trimming twice is trimming once. |
| `JsString.Split` | src/client.js:31 | `split` always yields at least one piece. |
| `JsString.SplitPiecesHaveNoSeparator` | src/client.js:31 | No piece of a split contains a `\n`. |
| `JsString.JoinSplit` | src/client.js:31 | Joining the pieces with `\n` gives the read's text back, so the split loses nothing. |
| `JsString.SplitWithoutSeparator` | src/client.js:31 | A text without `\n` is a single line. |
| `JsString.SplitAfterPiece` | src/client.js:31 | A `\n` after a line without `\n` ends exactly that line. |
| `JsString.SplitJoin` | src/client.js:31 | Splitting joined lines that contain no `\n` gives those lines back. |
| `StreamClient.Payload` | src/client.js:35 | The payload of a line: the first `data: ` removed, then trimmed. Its properties are stated by `PayloadOfDataLine`, `PaddedPayloadSameOutcome` and `CarriageReturnStripped`. |
| `StreamClient.ClassifyLine` | src/client.js:34-46 | The per-line step: a line is not data, the `[DONE]` marker, dropped, or a chunk. `AcceptedLine` states when it yields a chunk, in both directions. |
| `StreamClient.Exchange` | src/client.js:43-51 | The value published after a chunk and returned at the end: the user message, then a copy of the model message with the given content. `StreamPublication` and `ResolvedContent` state where it is used. |
| `StreamClient.Concat` | src/client.js:41 | The model turn's content: the accepted chunks concatenated in order. `ConcatAppend` and `ConcatGrows` state its properties. |
| `StreamClient.Outcome` | src/client.js:12-56 | What the promise settles with: the fetch's error, "Stream connection failed", the read error, or `[user, model]`. `RejectedBeforePublishing` and `ResolvedContent` state its cases. |
| `StreamClient.Published` | src/client.js:42-54 | The `onMessage` arguments in call order: the snapshots in stream mode, otherwise one call with the resolved value after a completed body. `StreamPublication` and `BufferedPublication` state its cases. |
| `StreamClient.LineChunks` | src/client.js:33-48 | The lines of one read accept at most one chunk each, and every accepted chunk is non-empty. |
| `StreamClient.ReadChunks` | src/client.js:26-49 | Every chunk accepted across all reads is non-empty. |
| `StreamClient.Snapshots` | src/client.js:42-44 | There is one snapshot per accepted chunk, and each holds exactly two messages. |
| `StreamClient.RagnaClient.constructor` | src/client.js:2-6 | It stores the API key, the project id and the stream flag. |
| `StreamClient.RagnaClient.SendMessage` | src/client.js:8-57 | The promise settles with `Outcome`, and the `onMessage` arguments are `Published`, in call order. This holds for a rejected fetch, an unusable response, a failing read and a completed body. |
| `StreamClient.RagnaClient.ConsumeRead` | src/client.js:30-48 | One read extends the content by the in-order chunks of its lines. In stream mode it publishes one snapshot per chunk; otherwise it publishes nothing. |
| `StreamClient.AcceptStep` | src/client.js:41-43 | Accepting a chunk publishes `[user, model]`, whose model content is the earlier content followed by the chunk. |
| `StreamClient.PayloadOfDataLine` | src/client.js:34-35 | A line `data: ` + rest is a candidate, and its payload is rest trimmed. |
| `StreamClient.OtherLinesSkipped` | src/client.js:34 | A line that does not start with `data: ` is skipped and contributes nothing. |
| `StreamClient.IndentedDataLineSkipped` | src/client.js:34 | A `data: ` line preceded by any non-empty run of white space is not a candidate. |
| `StreamClient.PaddedPayloadSameOutcome` | src/client.js:35 | White space around the payload does not change how a line is classified. |
| `StreamClient.CarriageReturnStripped` | src/client.js:35 | A CRLF line ending does not change how a line is classified. |
| `StreamClient.DoneMarkerIsTrimmed` | src/client.js:36 | `[DONE]` is its own trimmed form. |
| `StreamClient.DoneLineSkipped` | src/client.js:36 | `data: [DONE]` is recognised as the marker and contributes no chunk. |
| `StreamClient.MalformedPayloadDropped` | src/client.js:38-46 | A payload that does not parse, or whose chunk is missing or empty, is dropped and contributes nothing. |
| `StreamClient.AcceptedLine` | src/client.js:34-41 | A line yields chunk c exactly when it starts with `data: `, its payload is not `[DONE]` and it parses to the non-empty chunk c. |
| `StreamClient.LineChunksAppend` | src/client.js:33-48 | The chunks of concatenated line lists are the chunks of each list, in order. |
| `StreamClient.SkippedLineChangesNothing` | src/client.js:33-48 | Removing a line that yields no chunk leaves the accepted chunks unchanged. |
| `StreamClient.DoneDoesNotStop` | src/client.js:36 | The lines after `[DONE]` are folded in as if the marker were not there. |
| `StreamClient.ReadChunksAppend` | src/client.js:26-49 | The chunks of concatenated read lists are the chunks of each list, in order. |
| `StreamClient.ReadsFoldedIndependently` | src/client.js:30-31 | A new read adds the chunks of its own lines, whatever the earlier reads held. |
| `StreamClient.ConcatAppend` | src/client.js:41 | The content of two chunk lists is the content of the first followed by the content of the second. |
| `StreamClient.ConcatGrows` | src/client.js:41 | Each further non-empty chunk makes the content a strictly longer extension of what it was. |
| `StreamClient.SnapshotAt` | src/client.js:42-44 | The k-th `onMessage` call carries the user turn and the model turn holding the first k+1 chunks. |
| `StreamClient.ResolvedContent` | src/client.js:51-56 | A completed body resolves with `[user, model]`, whose content is every accepted chunk concatenated in order. |
| `StreamClient.StreamPublication` | src/client.js:41-44 | In stream mode there is one call per accepted chunk, each an exchange with the content so far. The contents grow strictly, and the last equals the resolved value. |
| `StreamClient.SnapshotsGrow` | src/client.js:41-44 | Each snapshot is the exchange so far, and the published model contents strictly increase as a prefix chain. |
| `StreamClient.LastSnapshot` | src/client.js:43 | The last snapshot carries all chunks. |
| `StreamClient.BufferedPublication` | src/client.js:51-54 | Without streaming, `onMessage` is called once, with the resolved value, and only when the body was read to the end. |
| `StreamClient.RejectedBeforePublishing` | src/client.js:12-21 | A failed fetch or an unusable response rejects before any `onMessage` call. An unusable response rejects with "Stream connection failed". |
| `StreamClient.OnlyUserAndModelRoles` | src/client.js:9-10 | Every message the client publishes or resolves with has role "user" or "model". |
| `ChunkJson.Decode` | src/client.js:39-40 | A payload yields text only when it is exactly `{"chunk": "<text>"}` around that plain text. |
| `ChunkJson.DecodeEncode` | src/client.js:39-40 | Decoding the encoding of plain text gives the text back. |
| `ChunkJson.DataLineAccepted` | src/client.js:34-41 | The wire line of a non-empty event is accepted with its text. |
| `StreamClient.TerminatedLine` | src/client.js:31-34 | A read holding one line and its `\n` yields what that line yields. |
| `ChunkJson.ThreeEvents` | src/client.js:33-48 | Three events followed by `[DONE]` and the final empty piece yield the three texts in order. |
| `ChunkJson.FoldOrderExample` | src/client.js:26-56 | The events "Hel", "lo, ", "world" and `[DONE]` are published as "Hel", "Hello, ", "Hello, world", and the call resolves with "Hello, world". |
| `ChunkJson.SplitEventIsLost` | src/client.js:30-31 | The same bytes give "Hi" in one read and "" when a read boundary cuts the `data:` line. |
| `ChatHook.ApplyAll` | src/useRagnaChat.js:15-33 | The list after applying the `onMessage` updates in call order. `ApplyAllAppend`, `SinglesOnlyAppend` and `LastArrayWins` state its properties. |
| `ChatHook.RepeatsLast` | src/useRagnaChat.js:25-26 | The duplicate check: the list ends with an `assistant` turn whose content equals the incoming message's. `SingleUpdate` and `DedupeIgnoresUpdateRole` are stated with it. |
| `ChatHook.Reduce` | src/useRagnaChat.js:17-32 | An array becomes the new state. A single message keeps the old list as a prefix and adds at most one message. |
| `ChatHook.SendViews` | src/useRagnaChat.js:8-36 | The states `sendMessage` passes through: loading set, user turn appended, one state per `onMessage` call, then loading cleared if the call resolves. `LoadingUntilResolved` states its properties. |
| `ChatHook.RagnaChat.constructor` | src/useRagnaChat.js:3-5 | The hook starts with no messages and not loading. |
| `ChatHook.RagnaChat.SendMessage` | src/useRagnaChat.js:7-37 | The states are: loading set; user turn appended; each published snapshot applied in order; then, when the client resolves, loading cleared. On rejection it returns the client's error and stays loading. |
| `ChatHook.RagnaChat.ApplyPublished` | src/useRagnaChat.js:15-33 | Each `onMessage` call applies the updater to the current list while loading stays set. |
| `ChatHook.ReplaceIgnoresState` | src/useRagnaChat.js:19-21 | An array update gives that array, whatever the previous state. |
| `ChatHook.SingleUpdate` | src/useRagnaChat.js:25-31 | A single message is dropped exactly when the last message is an `assistant` turn with the same content. Otherwise it is appended at the end and the length grows by one. |
| `ChatHook.ReduceIdempotent` | src/useRagnaChat.js:17-32 | Applying the same array, or the same `assistant` message, twice is the same as applying it once. |
| `ChatHook.UserSingleNotIdempotent` | src/useRagnaChat.js:25-31 | Unless the list already ends with an `assistant` turn of the same content, a single `user` message sent twice is appended twice, so the update is not idempotent. |
| `ChatHook.DedupeIgnoresUpdateRole` | src/useRagnaChat.js:26 | Once the list ends with an `assistant` turn, a single message of any role with that content is dropped. |
| `ChatHook.ModelTurnNotDeduplicated` | src/useRagnaChat.js:26 | Unless the list already ends with an `assistant` turn of the same content, a `model` message sent twice is appended twice. |
| `ChatHook.ApplyAllAppend` | src/useRagnaChat.js:15-32 | Applying two batches of updates is the same as applying the second batch to the result of the first. |
| `ChatHook.SinglesOnlyAppend` | src/useRagnaChat.js:25-31 | Single-message updates only append: the earlier list is a prefix, and it grows by at most one message per update. |
| `ChatHook.LastArrayWins` | src/useRagnaChat.js:19-21 | After array updates the list is the last array delivered; with none, it is left as it was. |
| `ChatHook.ClientTakesReplaceBranch` | src/useRagnaChat.js:19-28 | The client passes only arrays, and never an `assistant` message, so the duplicate check is never reached. |
| `ChatHook.ExchangeReplacesHistory` | src/useRagnaChat.js:19-21 | Once anything is published, the list after every `onMessage` call and at the end is `[user, model]` for the current input, and earlier turns are gone. When the call resolves, the list is exactly the resolved value. |
| `ChatHook.NothingPublishedKeepsUserTurn` | src/useRagnaChat.js:11 | A failed request, or a stream with no accepted chunk, leaves the earlier turns plus the user turn. |
| `ChatHook.FailedReadKeepsPartialContent` | src/useRagnaChat.js:13-34 | After a read fails, stream mode with at least one accepted chunk shows `[user, model]` with the content published so far. Without streaming only the user turn is added. |
| `ChatHook.LoadingUntilResolved` | src/useRagnaChat.js:8-36 | `isLoading` is set in every state until the client resolves and cleared in the final state. The second state appends exactly the user turn, unchanged, to the earlier list. |
| `ChatHook.DeliveryViewLoading` | src/useRagnaChat.js:15-33 | The state after the k-th `onMessage` call holds the first k+1 updates applied, with loading set. |

## Left out

- `fetch`, the URL, the request body and the `Authorization` header are left out. They are transport: the response is a parameter, and `apiKey` and `projectId` are only stored.
- `TextDecoder` is left out. Each read arrives already decoded as a string, so a multi-byte character split across reads is not modelled.
- `JSON.parse` is a parameter. `ChunkJson.Decode` covers only the `{"chunk": "..."}` shape without escapes. Chunks that are not strings, such as numbers or objects that `+=` would convert to text, are not modelled. A payload that parses to `null` throws inside the same `try`, so it is dropped just like `None`.
- The constructor's default `stream = true` (src/client.js:2) is not modelled: the constructor always takes the flag explicitly.
- An `onMessage` callback that throws is not modelled. In stream mode the `try` at src/client.js:38-46 would swallow the throw, after the content was already extended, and the loop would go on; without streaming the throw at src/client.js:53 would reject the call.
- `onMessage` being optional (`onMessage?.`) is not modelled separately. The calls are returned as a list, and a caller without a callback ignores it.
- React's `useState` scheduling and batching are left out. Each updater is applied at once, in call order.
- Two `sendMessage` calls in flight at once are not modelled. Each call runs to completion before the next.
- Strings are sequences of characters. UTF-16 surrogate pairs are not modelled; they never affect the `data: ` prefix, `[DONE]` or the white-space set.
- `src/RagnaChatEmbed.js` is not part of this model. It is the rendering widget. It refuses blank input before calling the hook; the hook itself accepts any input, which the model reflects.
