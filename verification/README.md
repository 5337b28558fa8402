# Chess-practice relay server, modelled in Dafny

The server pairs a phone with a desktop through a pairing code. The phone uploads
a photo of a chess diagram. A vision service reads the photo and answers with a
position string in FEN (Forsyth–Edwards Notation, section 16.1 of the PGN
Standard). The server announces that position to the sockets of the pairing code.

This project models the logic in `server.js` that runs without I/O:

- **Session registry** (`sessions.dfy`, module `Sessions`). The registry maps
  each pairing code to the set of socket ids that joined it. `join-session` adds
  a socket to its code's set. `disconnect` removes the socket from every set
  and drops a code once its set is empty. The registry is a
  `map<string, set<string>>` and both handlers are pure transition functions.
  `DisconnectEach` also models the handler's `forEach` loop one entry at a time.
- **JavaScript string built-ins** (`jstext.dfy`, module `JsText`). These are
  `split` and `join` with a one-character separator, and `trim`, with
  ECMAScript's white-space and line-terminator set.
- **Position detection after the service answers** (`detection.dfy`, module
  `Detection`). An answer parsed as an object with a `fen` string gets its
  second space-separated field replaced by `sideToMove`, or by `w` when that is
  absent or empty. Any other answer falls back to the FEN pattern match, or to
  the whole trimmed text when nothing matched. A missing API key and a service
  error are thrown errors, modelled as `Failure`.
- **The `/upload` handler** (`upload.dfy`, module `Upload`). The handler checks
  the form in order, runs detection and picks the HTTP reply. It returns the
  list of `position-detected` events it emits, each addressed to a pairing
  code.

`wrappers.dfy` holds the `Option` and `Result` types the modules share.

The vision service, `JSON.parse` and the two regular expressions are inputs to
the model. `Detection.StructuredParse` is the parse outcome. `Detection.Span`
is where the FEN pattern matched in the trimmed answer. The service's reply is
either its error message or its raw text.

A failed pattern match is not an error: the code returns the whole trimmed text
(`server.js:207`), so "Could not detect chess position" is answered only when
detection returns an empty string (`Detection.DetectEmpty`,
`Upload.UnmatchedTextIsRelayed`).

## Model

| member | source | states |
|---|---|---|
| Sessions.Join | server.js:224-228 | The code's set gains the socket id and is created empty first if the code was absent. The code becomes a key and every other code keeps its set. |
| Sessions.Disconnect | server.js:235-243 | Afterwards the id is in no set. A code is dropped exactly when the id was its only member. Every other member of every set stays, and each set loses only the id. |
| Sessions.DisconnectEach | server.js:236-243 | The entry-by-entry `forEach` loop, visiting the codes in any order, ends with the same registry as `Disconnect`. |
| Sessions.JoinKeepsNoEmptySessions | server.js:225-228 | Join keeps the invariant that every registered code has a non-empty set. |
| Sessions.DisconnectKeepsNoEmptySessions | server.js:237-241 | Disconnect keeps the invariant, because a set emptied by removing the id is deleted. |
| Sessions.JoinIdempotent | server.js:228 | Joining the same socket to the same code twice gives the registry that joining once gives. |
| Sessions.DisconnectIdempotent | server.js:236-243 | A second disconnect of the same socket changes nothing. |
| Sessions.DisconnectUnknown | server.js:236-237 | Disconnecting a socket that is in no set leaves the registry unchanged. |
| Sessions.JoinThenDisconnect | server.js:220-244 | A socket in no set that joins a code and then disconnects leaves the registry as it was, provided the invariant holds. |
| Sessions.ReplayKeepsNoEmptySessions | server.js:220-244 | Any sequence of join and disconnect events keeps the invariant, starting from a registry that has it (such as the empty one at start-up). `Sessions.Step` dispatches one event to `Join` or `Disconnect`, and `Sessions.Replay` applies the events in order. |
| Sessions.DisconnectAllRemovesCode | server.js:239-241 | Once every socket of a code has disconnected, the code is gone from the registry. |
| JsText.Split | server.js:194 | `split(' ')` yields one more piece than there are spaces, and no piece holds a space. There are at least two pieces exactly when the string holds a space. |
| JsText.JoinSplit | server.js:194-197 | Joining the pieces of a split with the separator gives back the original string. |
| JsText.SplitJoin | server.js:194-197 | Splitting a join of at least one separator-free piece gives back the pieces. |
| JsText.Join | server.js:197 | `join(' ')` of no pieces is empty. Otherwise the result starts with the first piece, a separator follows it when there is a second piece, and there are at least as many characters as separators. The contents are pinned down by the `JoinSplit` and `SplitJoin` round trips. |
| JsText.SplitTwoHeads | server.js:194 | A string of the form `a b rest`, where `a` and `b` have no space, splits into `a`, `b`, then the pieces of `rest`. |
| JsText.JoinTwoHeads | server.js:197 | A join of two pieces and more is the two pieces around a separator, then a separator and the join of the rest (if any). |
| JsText.TrimStart | server.js:178 | The result is a suffix of the input. Everything cut off is white space, and the result does not start with white space. |
| JsText.TrimEnd | server.js:178 | The result is a prefix of the input. Everything cut off is white space, and the result does not end with white space. |
| JsText.Trim | server.js:178 | `trim()` yields a contiguous slice of the input. Everything before and after it is white space, and it neither starts nor ends with white space. |
| JsText.TrimEmpty | server.js:178 | The trimmed text is empty exactly when the whole text is white space. |
| JsText.TrimIdempotent | server.js:178 | Trimming a trimmed text changes nothing. |
| Detection.EffectiveSide | server.js:191 | The `sideToMove` default: the reported side when it is a non-empty string, otherwise `w`. It is never empty. |
| Detection.OverrideFields | server.js:190-198 | With two or more fields, the result has the same number of fields and field 1 is the effective side. Every other field is unchanged. This holds when the side itself has no space. |
| Detection.OverrideSideToMove | server.js:189-198 | A position string without a space (a single field) is returned unchanged. With a space, the result is the input with the characters of field 1 replaced by the effective side, and everything before and after them kept character for character, for any side. The result is empty exactly when the input is. |
| Detection.ReplaceField1Splice | server.js:194-197 | Joining the split fields with field 1 exchanged for a side string splices that string in place of field 1's characters, and field 1 sits right after the first space. |
| Detection.ReplaceSideToken | server.js:194-197 | For `placement side rest` with no space in `placement` or `side`, there are at least two fields, and exchanging field 1 for `s` and joining gives `placement s rest`. |
| Detection.OverrideReplacesSideToken | server.js:189-198 | `placement side rest` becomes `placement s rest`, where `s` is the effective side. So `... w KQkq - 0 1` with `sideToMove` `b` becomes `... b KQkq - 0 1`. |
| Detection.ExtractPosition | server.js:183-208 | An object with a `fen` string gets the side override. Anything else (unparseable text, or no `fen` string, where `fen.split` throws inside the same `try`) yields the non-empty pattern match, or the whole trimmed text if nothing matched. |
| Detection.Detect | server.js:83-214 | A missing or empty API key throws the fixed message, whatever the service would answer. A service error is rethrown with its message. Any answer yields a string and never an absent value. |
| Detection.DetectEmpty | server.js:178-207 | Detection returns `""` exactly when the structured `fen` is empty, or when nothing was structured, nothing matched and the whole answer is white space. |
| Detection.FallbackIsPartOfAnswer | server.js:203-207 | Without a structured `fen`, detection succeeds with the matched stretch of the trimmed answer, or with all of it when nothing matched. |
| Upload.Validate | server.js:48-54 | A request passes exactly when it has a non-empty pairing code and an image. A missing or empty code is reported first, as "Pairing code required", whether or not an image came. Otherwise a missing image is reported as "No image provided". |
| Upload.HandleUpload | server.js:44-80 | Checks run in order. A missing or empty code gives 400 "Pairing code required", with or without an image. Then a missing image gives 400 "No image provided". A thrown error gives 500 with its message, and an empty result gives 500 "Could not detect chess position". Otherwise the reply is 200 with the fen, plus one event to the code. |
| Upload.EmitsOnlyOnSuccess | server.js:59-74 | At most one event is emitted, and one is emitted exactly when the reply is 200 with a success body. That event goes to the request's code and carries the reply's non-empty fen. The status is always 200, 400 or 500. |
| Upload.ValidationPrecedesDetection | server.js:48-54 | When validation fails, the outcome does not depend on the API key or the service's reply (detection is not run), the status is 400 and nothing is emitted. |
| Upload.MissingKeyFailsUpload | server.js:86-87 | A valid upload without an API key gets 500 with the missing-key message and emits nothing. |
| Upload.UnmatchedTextIsRelayed | server.js:59-68 | An unstructured answer that matches no FEN pattern but is not blank is emitted to the code as it stands, trimmed. |
| Upload.StructuredAnswerIsRelayed | server.js:59-74 | A valid upload whose answer parses to `placement side rest` replies 200 with `placement s rest` and emits exactly that string to the pairing code, where `s` is the reported side or `w`. |
| Upload.OneEmissionPerSuccess | server.js:59-74 | Over any run of uploads, the number of `position-detected` events equals the number of successful replies. |
| Upload.EmissionsGoToTheirCode | server.js:68 | A code that no upload in a run targeted receives none of the run's events. |

## Left out

- HTTP plumbing: Express routing, static page serving, the multer upload limit and server start-up (server.js:1-41, 247-252) carry no logic. The image is reduced to whether one was sent.
- The vision service: the Gemini client, model configuration, prompt text and base64 encoding (server.js:89-180) are an external API. The model takes the service's reply (error message, or raw text) as an input.
- `JSON.parse` and the `{...}` extraction regex (server.js:185-187): library behaviour. Their combined outcome is the input `StructuredParse`.
- The FEN regular expression (server.js:206): the regex engine is not modelled. Its outcome is an optional non-empty span of the trimmed text.
- Non-string JSON values: a non-string `fen` throws on `split` and so takes the fallback path, which is modelled as an absent `fen`. A non-string truthy `sideToMove` (a number, say) would be converted to text by `join`. This is not modelled, because `sideToMove` is an optional string here.
- Detection.OverrideFields: needs the effective side to contain no space. A side with spaces would read back as extra fields, which the source allows. `OverrideSideToMove` describes that case: its splice postcondition holds for any side.
- Socket.io: room membership (`socket.join`), the `session-joined` acknowledgement (server.js:221, 230) and message delivery (server.js:68) are not modelled. Emissions are recorded as events addressed to a code. The model does not claim that the registry decides who receives them.
- Payload types: socket.io delivers the `join-session` payload as any JSON value, and a repeated form field reaches multer as an array. Both are modelled as strings.
- Async suspension, concurrent uploads, logging and environment reading are not modelled. The API key is an input.
- Strings: JavaScript strings are UTF-16 code units, and the model uses Unicode scalar values. `trim`'s white-space set is the ECMAScript one with the current Unicode space separators.
