# Kindroid memory relay: the save-memory directive protocol

`bot.py` relays each Telegram message to the Kindroid chat service and
keeps a small memory store next to it. For one user message it:

1. reads up to three stored memories;
2. sends the chat service a prompt made of those memories, the message and
   a fixed instruction block;
3. looks in the chat reply for an embedded directive
   `SAVE_MEMORY: {"content": ..., "importance": ...}`;
4. stores that payload, removes the marker from the reply, and sends the
   remaining text to the user.

This project models that turn as pure Dafny functions, and proves lemmas
about them.

- `text.dfy` holds the shared text helpers:
  - `Text.IsSpace` is the character table of Python's `str.isspace`. Regular
    expression `\s` on a `str` pattern uses the same table.
  - `Text.Strip` is `str.strip()`.
  - `Text.Join` is `"\n".join(...)`. `Text.SplitLines` splits on newlines and
    is used only to state that the join loses nothing.
- `clients.dfy` holds the pure parts of the three remote calls:
  - the JSON value type;
  - `get_memories` and its `[:3]` slice;
  - the status-200 test of `save_memory`;
  - the prompt built by `kindroid_chat`, and its reply trim and failure
    sentence.
- `directive.dfy` is the core, the handler's lines 86-95:
  - `Directive.Search` writes the search `SAVE_MEMORY:\s*(\{.*?\})` (flag
    DOTALL) out as a scan. The match is the leftmost marker followed by
    whitespace and a `{`. The payload runs from that `{` to the first `}`
    after it.
  - `Directive.StripMarkers` writes out the substitution
    `SAVE_MEMORY:.*?(?=\n|$)`. It deletes every marker together with the
    rest of its line and keeps the newline.
  - `Directive.HandleReply` combines them:
    - no match leaves the reply unchanged;
    - a payload that does not parse, or has no `"content"`, raises;
    - otherwise exactly one save request is built, with `importance`
      defaulting to 3 only when the key is absent, and the cleaned reply is
      sent.
- `handler.dfy` is the whole `handle_message`, with scenario lemmas on
  concrete replies.

The remote services are parameters of the model:
- `chat` is what the chat service answers to a prompt (`None` when the
  request raised);
- `parse` is `json.loads` (`None` when it raised);
- `store` is the memory store's answer to a save request.

The outcome of a turn is one of:
- `Reply(text)`;
- `SavedThenReply(request, text)`;
- `Raised`: an exception escapes the handler and nothing is sent.

The model follows the code as written, including these behaviours a reader
may not expect:
- **Malformed payload.** There is no `try` around `json.loads(...)` or
  `memory_data["content"]` (bot.py:90-91). A malformed payload or a missing
  `"content"` key therefore raises out of `handle_message`: nothing is
  saved, the marker is not stripped and no reply is sent.
- **Payload end.** The payload ends at the first `}` after the `{`
  (`.*?`). It is not a balanced-brace scan.
- **`importance`.** The payload's `importance` is used whatever its type.
  The default of 3 applies only when the key is absent
  (`dict.get("importance", 3)`).
- **Error answers from the chat service.** Any answer body is returned,
  stripped, whatever the HTTP status (bot.py:68). Only a raised request gives
  the failure sentence (bot.py:71).
- **Malformed memories.** The list comprehension over the memories
  (bot.py:48) runs outside the chat client's `try`. A fetched memory that is
  not a dict with a string `"content"` makes the whole turn raise.
- **String under `"memories"`.** `[:3]` on a JSON string yields its first
  three characters. The comprehension then iterates them as one-character
  strings, so a non-empty string makes the turn raise; the empty string
  yields no memories and the turn goes on.

## Model

| member | source | states |
|---|---|---|
| Text.Strip | bot.py:68 | `str.strip()`: the result is a contiguous slice of the input that starts after the leading whitespace. Everything after it is whitespace, and it neither starts nor ends with whitespace. |
| Text.IsSpace | bot.py:68 | The whitespace table shared by `\s` (bot.py:87) and every `.strip()`; it has no contract of its own and is used by Text.Strip and Directive.MatchAt. |
| Text.Join | bot.py:48 | `"\n".join`: no parts give the empty string and one part gives itself; Text.SplitJoin shows the join loses nothing. |
| Text.StripFixesStripped | bot.py:93 | A string is its own strip exactly when it has no outer whitespace (both directions). |
| Text.StripIdempotent | bot.py:93 | Stripping twice is stripping once. |
| Text.StripIgnoresTrailingSpace | bot.py:93 | A trailing whitespace character does not change the strip. |
| Text.SplitJoin | bot.py:48 | Joining newline-free lines with `"\n"` and splitting the result on newlines gives the lines back. |
| Json.Lookup | bot.py:90-91 | `value[key]` is defined exactly when the value is a dict holding the key, and then yields that entry. |
| MemoryClient.TakeFirst | bot.py:23 | `[:3]`: a list keeps a prefix of length min(3, len). A string keeps min(3, len) characters, each as a one-character string. Any other value raises. |
| MemoryClient.GetMemories | bot.py:20-26 | The fetched list never has more than 3 entries, and is a prefix of the store's list when the body holds one. |
| MemoryClient.GetMemoriesIsPrefix | bot.py:21-26 | The list is exactly the store's first min(3, n) entries in the store's order. Every other body shape yields the empty list, except a string, which yields at most its length. |
| MemoryClient.SaveSucceeded | bot.py:35-40 | `save_memory` returns true exactly when the store answered status 200. A raised request and any other status give false. |
| ChatClient.Contents | bot.py:48 | The comprehension succeeds exactly when every memory is a dict with a string `"content"`. It then yields those strings, one per memory, in order. |
| ChatClient.ComposePrompt | bot.py:48-56 | The prompt f-string; it has no contract of its own, and ChatClient.PromptLayout and ChatClient.MemoryBlockRoundTrip state its layout. |
| ChatClient.PromptLayout | bot.py:48-56 | The prompt is, in order: the header line, the joined memory block, `"\n\nUser: "`, the message, and the fixed instruction block. With no memories the block is empty. |
| ChatClient.MemoryBlockRoundTrip | bot.py:48-51 | The memory block of the prompt splits back into exactly the memory contents, in the given order. |
| ChatClient.ChatReply | bot.py:63-71 | The answer text is stripped. A received body gives its strip, whatever the status. A raised request gives the fixed failure sentence. |
| Directive.MatchAt | bot.py:87 | The engine's attempt at one index succeeds exactly when the pattern matches there. It then returns the `{` after the whitespace run and the first `}` after it. |
| Directive.NoMatchWithoutClose | bot.py:87 | Without a `}` after the `{`, no match starts at that marker. |
| Directive.SearchFrom | bot.py:87 | The result is the first index from `i` on at which the pattern matches. No earlier index matches, and `None` means no index matches. |
| Directive.Search | bot.py:87 | `re.search`: it returns `None` exactly when no index matches. Otherwise it returns the leftmost match, whose payload holds no `}` before its end. |
| Directive.Payload | bot.py:87-90 | `save_match.group(1)`, handed to `json.loads`; it has no contract of its own, and Directive.PayloadSpan states its span. |
| Directive.PayloadSpan | bot.py:87 | The payload starts with the `{` that follows the leftmost qualifying marker and its whitespace. It ends with the first `}` after that `{`. It holds no other `}`. |
| Directive.SearchFinds | bot.py:87 | The match is determined by the text. A qualifying marker with no marker before it, its `{`, and the first `}` after it are exactly what the search returns. |
| Directive.BraceAfterSpace | bot.py:87 | After a marker, the `{` that ends the whitespace run is unique. |
| Directive.FoundAfterNewline | bot.py:87 | A match that starts the line after marker-free text is the one found. |
| Directive.DirectiveShape | bot.py:55-56 | A directive written as the instructions ask matches at its start. Its whole `{...}` is the payload. |
| Directive.DirectiveOnLastLine | bot.py:87-90 | A directive on the last line after marker-free text is found, and exactly its `{...}` goes to the parser. |
| Directive.NoBraceNoMatch | bot.py:87-89 | Text without `{` has no match. |
| Directive.LineEnd | bot.py:93 | The lookahead (a newline or the end) first holds at the next newline or at the end of the text. |
| Directive.StripMarkers | bot.py:93 | The `re.sub`: the result is never longer than the input; Directive.StripMarkersRemovesAll, StripMarkersOnLine, StripMarkersAcrossNewline and NoMarkerUnchanged state what it removes and keeps. |
| Directive.StripMarkersRemovesAll | bot.py:93 | After the substitution no marker remains. Every occurrence is removed, and no new one is formed. |
| Directive.StripMarkersKeepsPrefix | bot.py:93 | Any newline-free text the substitution result starts with is also a prefix of the input. |
| Directive.NoMarkerUnchanged | bot.py:93 | Marker-free text is left unchanged. |
| Directive.StripMarkersOnLine | bot.py:93 | Within one line, the substitution cuts the line at its first marker and keeps what precedes it. |
| Directive.StripMarkersAcrossNewline | bot.py:93 | The substitution works line by line: each newline is kept, and no removed segment reaches past one. |
| Directive.MarkerLineAcrossNewline | bot.py:93 | The same, for a text whose first line starts with the marker. |
| Directive.NewlineFirst | bot.py:93 | A leading newline is never removed. |
| Directive.MarkerAtFrontOfLine | bot.py:93 | The marker starts `a + "\n" + b` exactly when it starts `a`. |
| Directive.LineEndInFirstLine | bot.py:93 | The lookahead search inside the first line ignores what follows the line. |
| Directive.CleanReply | bot.py:93 | The substitution followed by `.strip()`: for every input the result holds no marker and has no outer whitespace. Which text survives is stated by StripMarkersOnLine, StripMarkersAcrossNewline, LaterLinesSurvive and LastLineRemoved. |
| Directive.LastLineRemoved | bot.py:93 | A marker line that ends a stripped, marker-free text is removed together with the newline before it. |
| Directive.LaterLinesSurvive | bot.py:87-93 | Lines after the marker's line, such as the rest of a multi-line payload, stay in the text in order. Only the marker's own line is emptied. |
| Directive.MarkerLineThenRest | bot.py:93 | A marker line followed by marker-free lines loses only its own text. |
| Directive.HandleReply | bot.py:86-93 | The reply is sent unchanged exactly when there is no match; a save is always for this assistant and user and is followed by the cleaned reply. Directive.SaveArguments, NoDirectivePassesThrough, MalformedPayloadRaises and SaveResultIgnored state each case. |
| Directive.NoDirectivePassesThrough | bot.py:87-89 | With no match, the reply is sent exactly as received and nothing is saved. |
| Directive.BracelessMarkerKept | bot.py:87-95 | A marker that no `{` follows is not a directive. The reply, marker included, is sent as received. |
| Directive.SaveArguments | bot.py:90-93 | A parsed object with `"content"` yields exactly one save with that content and the payload's `importance`, or 3 when the key is absent. The sent text is the cleaned reply. |
| Directive.SaveResultIgnored | bot.py:91-93 | The outcome, sent text included, does not depend on the store's answer to the save. |
| Directive.MalformedPayloadRaises | bot.py:90-91 | A payload that does not parse, or lacks `"content"`, raises before any save, and nothing is sent. |
| Directive.SentReplyAfterSaveIsClean | bot.py:89-95 | Whenever a save happened, there was a match, and the sent text has no marker and no outer whitespace. |
| Directive.DirectiveOnLastLineSaves | bot.py:86-95 | A reply ending in a well-formed directive line saves its content and importance and sends the text before the directive. |
| Handler.HandleMessage | bot.py:76-95 | A malformed fetched memory makes the turn raise; text sent without a save has no outer whitespace; a save is for this assistant and user. Handler.SentTextIsClean and the scenario lemmas state the rest. |
| Handler.SentTextIsClean | bot.py:76-95 | Whatever the services answer, the sent text has no outer whitespace. After a save it holds no marker. Without a save it is the chat client's reply itself. |
| Handler.MalformedMemoryRaises | bot.py:48 | A fetched memory that is not a dict with a string `"content"` makes the turn raise before the chat call. |
| Handler.EmptyStorePrompt | bot.py:23-56 | An empty store yields no memories and a prompt with an empty memory block. |
| Handler.BirthdayScenario | bot.py:76-95 | A reply "Got it!" followed by a directive line yields one save with content "birthday May 3" and importance 4. The user receives "Got it!". |
| Handler.BirthdayReplyStripped | bot.py:68 | The chat client passes that reply on unchanged. |
| Handler.BirthdayLineShape | bot.py:87 | The scan matches that directive line whole. |
| Handler.HelloScenario | bot.py:76-95 | A plain answer reaches the user verbatim, and nothing is saved. |
| Handler.HelloPassesThrough | bot.py:87-89 | The plain answer is its own strip and holds no directive. |
| Handler.ChatFailureScenario | bot.py:69-95 | When the chat request raises, the user receives the failure sentence, and nothing is saved. |

## Left out

- Telegram wiring (`start`, `main`, handler registration, polling) and the
  call to `reply_text` (bot.py:73-74, 95, 97-106) are front-end I/O. The model
  ends with the text handed to `reply_text`. Telegram's refusal of an empty
  message is not modelled.
- The HTTP requests (bot.py:22, 36, 64) are network I/O. Their results
  enter the model as parameters: the decoded store body, the chat answer
  body, and the save status. In each, `None` stands for a raised exception.
- Configuration (`load_dotenv`, `os.getenv`, bot.py:10-15) and logging
  (bot.py:17-18, 25, 39, 66-67, 70) are process state and side output. The
  assistant and user identifiers are parameters.
- The `async`/`await` structure is not modelled. Each turn is one
  sequential computation.
- `json.loads` and `Response.json()` are not re-implemented. Parsing is a
  parameter, and JSON numbers with a fraction are `real` values.
- HandleReply: the save happens before the substitution in the source. Both
  are pure in the model, so the order is not observable and not stated.
- MemoryClient.GetMemoriesIsPrefix: for a string under `"memories"`, it
  states only a length bound. A non-empty string makes the turn raise later
  (see Handler.MalformedMemoryRaises); the empty string yields no memories,
  which the bound already gives.
- Regular expressions in general are not modelled, only the two patterns the
  handler uses, written as scans. `$` also holds before a final newline,
  but the `\n` alternative of the lookahead already covers that position.
