# Portfolio AI Chat — a verified model of its client-side logic

This project models the deterministic logic of the Portfolio AI Chat web
client. A user uploads a spreadsheet or CSV file of real-estate locations,
previews the table, and chats with a strategy assistant over a socket. The
model covers:

- **Location heuristic and location list** (`Locations`). A header is chosen
  by a prioritised list of name fragments, matched case-insensitively. The
  list holds that column's trimmed, non-blank string cells, without
  duplicates and sorted. The two components that compute it share this
  module, because the source has the same code in both.
- **Strategic-question form** (`PredefinedQuestions`). It has toggles for
  objectives and for keep/exit locations, and a clause formatter with a
  validity gate.
- **Suggested questions panel** (`SuggestedQuestions`). It shows the first
  five locations and one question per location.
- **Markdown renderer** (`Markdown`, `MarkdownProperties`, `ListNesting`). The
  fixed chain of regular-expression passes is modelled pass by pass, each as
  a left-to-right scan. This includes the two list passes: they collect the
  list lines, delete them and append one list block. The chain ends with
  line-break conversion and the paragraph wrap.
- **File decoder** (`FileParser`). It covers the HTML escaper and how decoded
  records become `{headers, data}`: dispatch on the extension, the header
  record, the blank-row filter and the error messages.
- **Chat session** (`ChatInterface`). A class holds the fields of the chat
  component. The socket events and the send path change them.
- **Screen switch** (`PortfolioAIChat`). It has three fields that its two
  handlers set together.
- **Data preview** (`DataPreview`). It covers the first ten rows, the row
  counts and the placeholder shown for a falsy cell.

`Strings` holds the JavaScript string operations the code relies on:

- `trim` and `\s` use the full JavaScript white-space set, including the line
  terminators and the Unicode space separators.
- `toLowerCase` and `includes`.
- `join`.
- The default `sort` order, modelled as lexicographic order on characters.
- Decimal formatting of integers.

`Wrappers` has `Option` and `Result`. `Portfolio` has the decoded table, whose
cells are `string | number`.

Regular expressions and the scans that model them:

- Multiline `^` holds at the start of the text and after a line terminator
  (`\n`, `\r`, U+2028, U+2029).
- `.` matches anything but a line terminator.
- Lazy `(.*?)` stops at the first closing delimiter.
- The list patterns `^\s*[\*-]\s+(.*)$` and `^\s*\d+\.\s+(.*)$` are modelled
  with greedy runs of character classes. So `^\s*` can run across blank lines,
  as it does in JavaScript.

## Model

| member | source | states |
|---|---|---|
| Strings.Trim | src/components/PredefinedQuestions.tsx:61-62 | the trimmed text is no longer than the input, has no white space at either end, and is empty exactly when the input is all white space (that it is a slice of the input is `Strings.TrimSlice`) |
| Strings.TrimSlice | src/components/PredefinedQuestions.tsx:61-62 | the trimmed text is the slice of the input that follows its leading white space and precedes its trailing white space |
| Strings.TrimIdempotent | src/components/PredefinedQuestions.tsx:62 | a trimmed location is its own trim |
| Strings.ToLower | src/components/PredefinedQuestions.tsx:47 | lower-casing keeps the length and maps every character by the ASCII case map |
| Strings.NatToStringRoundTrip | src/components/DataPreview.tsx:21 | the decimal numeral of a count reads back as that count |
| Locations.FindIndex | src/components/PredefinedQuestions.tsx:46-48 | the result is the leftmost header containing the fragment case-insensitively, or -1 exactly when no header does |
| Locations.FirstHitSpec | src/components/PredefinedQuestions.tsx:45-50 | the candidate search returns the leftmost header of the first candidate that any header matches, or -1 when none matches |
| Locations.ChosenUnique | src/components/PredefinedQuestions.tsx:45-50 | at most one candidate and one column satisfy the choice: earlier candidates win, and then the leftmost header |
| Locations.LocationColumnSpec | src/components/PredefinedQuestions.tsx:42-55 | column 0 when no header matches any candidate; otherwise the leftmost header of the first candidate, in list order, that matches |
| Locations.LocationColumnChosen | src/components/PredefinedQuestions.tsx:45-50 | a column that is leftmost for a candidate no earlier candidate matches is the column used |
| Locations.LocationColumnInRange | src/components/PredefinedQuestions.tsx:53-55 | with at least one header the column is a valid header index |
| Locations.LocationBeatsEarlierSite | src/components/PredefinedQuestions.tsx:36-40 | with headers "Site" and "Location" the "Location" column wins |
| Locations.LocationSetMembers | src/components/PredefinedQuestions.tsx:58-64 | a location is exactly the trimmed text of some non-blank string cell of the column, so it is non-empty and trimmed; number, missing and blank cells contribute nothing |
| Locations.LocationSetHas | src/components/PredefinedQuestions.tsx:59-63 | every non-blank string cell's trimmed text is in the set |
| Locations.LocationSetBound | src/components/PredefinedQuestions.tsx:58-64 | the set is the smallest holding every such trimmed text |
| Locations.SortedSet | src/components/PredefinedQuestions.tsx:66 | the sorted listing is strictly ascending (so duplicate-free) and has exactly the elements of the set |
| Locations.CollectLocations | src/components/PredefinedQuestions.tsx:58-64 | the loop over the rows yields a duplicate-free sequence with exactly the elements of the location set |
| Locations.FindLocationColumn | src/components/PredefinedQuestions.tsx:42-55 | the loop over candidates with its early exit returns the column stated by the search specification |
| Locations.SortLocations | src/components/PredefinedQuestions.tsx:66 | sorting distinct locations yields a strictly ascending sequence with the same elements |
| LocationExamples.LocationsExample | src/components/PredefinedQuestions.tsx:58-66 | cells "  NYC  ", "LA" and "nyc" give ["LA", "NYC", "nyc"]: trimmed, not case-folded, sorted with upper case first |
| PredefinedQuestions.ExtractLocations | src/components/PredefinedQuestions.tsx:32-67 | the available locations are the sorted location set of the chosen column |
| PredefinedQuestions.Without | src/components/PredefinedQuestions.tsx:72 | filtering removes every copy of the value, keeps every other entry, and returns the list unchanged when the value is absent |
| PredefinedQuestions.WithoutAppend | src/components/PredefinedQuestions.tsx:72 | filtering works entry by entry: the filter of a concatenation is the concatenation of the filters, so the surviving entries keep their order and their number |
| PredefinedQuestions.WithoutSingle | src/components/PredefinedQuestions.tsx:72 | a single entry survives exactly when it differs from the removed value |
| PredefinedQuestions.WithoutDistinct | src/components/PredefinedQuestions.tsx:72 | filtering keeps a list duplicate-free and removes exactly one entry when the value is present |
| PredefinedQuestions.Toggle | src/components/PredefinedQuestions.tsx:69-75 | the value is present afterwards exactly when it was absent before: appended at the end if absent, filtered out if present; other entries are untouched |
| PredefinedQuestions.ToggleDistinct | src/components/PredefinedQuestions.tsx:69-75 | toggling keeps a list duplicate-free |
| PredefinedQuestions.ToggleTwice | src/components/PredefinedQuestions.tsx:69-75 | toggling twice restores the same entries, duplicate-free, and restores the exact list when the value was absent |
| PredefinedQuestions.ToggleLocation | src/components/PredefinedQuestions.tsx:77-95 | after a keep toggle the location is not in the exit list and its keep membership is flipped; after an exit toggle the reverse; other locations are untouched |
| PredefinedQuestions.ToggleLocationDisjoint | src/components/PredefinedQuestions.tsx:77-95 | keep and exit stay disjoint |
| PredefinedQuestions.Clause | src/components/PredefinedQuestions.tsx:100-110 | a clause is empty exactly when its list is empty, and otherwise opens with its lead-in and ": " |
| PredefinedQuestions.HandleSubmit | src/components/PredefinedQuestions.tsx:97-118 | a question is submitted exactly when the form is valid (some list non-empty), and it is the clauses in the order objectives, keep, exit, then the closing sentence |
| PredefinedQuestions.QuestionEndsWithClosing | src/components/PredefinedQuestions.tsx:112-113 | the question ends with the closing request |
| PredefinedQuestions.QuestionOpening | src/components/PredefinedQuestions.tsx:97-113 | the question opens with the lead-in of the first non-empty list in the fixed order, and is only the closing sentence when every list is empty |
| PredefinedQuestions.QuestionMentions | src/components/PredefinedQuestions.tsx:100-110 | every selected objective and location appears in the question |
| PredefinedQuestions.QuestionExample | src/components/PredefinedQuestions.tsx:97-114 | objectives ["Rightsize"] alone give "My primary strategic objectives are: Rightsize. " followed by the closing sentence |
| PredefinedQuestions.StrategicForm.constructor | src/components/PredefinedQuestions.tsx:20-30 | the form starts with empty selections and the extracted locations |
| PredefinedQuestions.StrategicForm.ObjectiveToggle | src/components/PredefinedQuestions.tsx:69-75 | the objectives become their toggle, nothing else changes, and the selections stay duplicate-free with keep and exit disjoint |
| PredefinedQuestions.StrategicForm.LocationToggle | src/components/PredefinedQuestions.tsx:77-95 | keep and exit become the location toggle of the old lists, the rest is unchanged, and the invariant is kept |
| PredefinedQuestions.StrategicForm.Submit | src/components/PredefinedQuestions.tsx:97-118 | the current selections are submitted exactly when the form is valid, as the formatted question |
| SuggestedQuestions.Top | src/components/SuggestedQuestions.tsx:42 | at most five locations, and they are the first ones of the listing |
| SuggestedQuestions.GetAvailableLocations | src/components/SuggestedQuestions.tsx:12-43 | the panel's locations are the first five of the same sorted location set the form computes |
| SuggestedQuestions.TopAreSmallest | src/components/SuggestedQuestions.tsx:42 | the shown locations are sorted, come from the set, number five whenever the set has five, and each one left out sorts after each one shown |
| SuggestedQuestions.LocationQuestion | src/components/SuggestedQuestions.tsx:143 | the question is the fixed prefix, then the location, then "?" |
| SuggestedQuestions.LocationQuestionRoundTrip | src/components/SuggestedQuestions.tsx:143 | the location can be read back out of its question |
| SuggestedQuestions.LocationQuestionInjective | src/components/SuggestedQuestions.tsx:140-143 | distinct locations give distinct questions |
| SuggestedQuestions.LocationSectionShown | src/components/SuggestedQuestions.tsx:135 | the location section is shown exactly when some row has a non-blank string cell in the location column |
| SuggestedQuestions.PanelQuestions | src/components/SuggestedQuestions.tsx:47-143 | the buttons open with the general questions and then the fixed location questions, in display order, followed by one question per shown location, in order |
| Markdown.FindClose | src/utils/markdown.ts:13-18 | a lazy span closes at the first closing delimiter, with no line terminator before it unless the span crosses lines |
| Markdown.LinePrefixCopies | src/utils/markdown.ts:5-10 | past its first character a one-line text has no line start, so a heading pass copies the rest of it unchanged |
| Markdown.HeadingPassSkips | src/utils/markdown.ts:5-10 | a one-line text that does not open with the pass's `#` run and a space is left alone |
| Markdown.HeadingPassTakes | src/utils/markdown.ts:5-10 | `n` hashes, a space and a title become the level-`n` heading tags around the title |
| Markdown.HeadingPassSplit | src/utils/markdown.ts:5-10 | at a line boundary a heading pass works on the two parts separately, and its results still meet at a line boundary |
| Markdown.SpanFromCopies | src/utils/markdown.ts:13-27 | a span pass copies text with no opening delimiter |
| Markdown.ItemAt | src/utils/markdown.ts:30 | a list line that matches ends inside the text, after where it starts |
| Markdown.ListItems | src/utils/markdown.ts:32-34 | one `<li class="ml-4">` per item, holding the item's text |
| Markdown.RunFacts | src/utils/markdown.ts:30 | a greedy run of `\s`, `\d` or `.` is all in its class and stops at the end or at a character outside it |
| Markdown.PiecesCover | src/utils/markdown.ts:30-35 | the kept text and the matched lines, in order, make up the text |
| Markdown.NoMatchNoItems | src/utils/markdown.ts:30-31 | without a matching line there are no items |
| Markdown.ListPassIdentity | src/utils/markdown.ts:30-37 | with no matching line the list pass is the identity |
| Markdown.ItemAtSlice | src/utils/markdown.ts:33 | a matched line, taken on its own, matches again with the same content |
| Markdown.ItemRewrite | src/utils/markdown.ts:33 | rewriting a matched line on its own gives the `<li>` around its content |
| Markdown.RewriteMatches | src/utils/markdown.ts:32-34 | rewriting the collected lines one by one gives one `<li>` per matched line, holding its content, in order |
| Markdown.ListPassShape | src/utils/markdown.ts:30-37 | with some matching line the result is the text with every matched line deleted, then one list block with an item per matched line, in order |
| Markdown.NoNewlineLeft | src/utils/markdown.ts:51 | after the `<br>` pass no `\n` is left |
| Markdown.Wrap | src/utils/markdown.ts:53-56 | the result starts with `<` and adds no newline |
| Markdown.MarkdownToHtml | src/utils/markdown.ts:1-59 | the pass-by-pass renderer computes the rendering, which has no `\n` and starts with `<` |
| Markdown.RenderNoNewline | src/utils/markdown.ts:50-51 | no rendering holds a `\n` |
| MarkdownProperties.HeadingLevel | src/utils/markdown.ts:5-10 | a line of `n` hashes, a space and a one-line title renders as a level-`n` heading and no other; `## x` never becomes `<h1>` |
| MarkdownProperties.HeadingsSplit | src/utils/markdown.ts:5-10 | the six heading passes work line by line: a text split at a line boundary renders as its two parts rendered on their own |
| MarkdownProperties.HeadingLine | src/utils/markdown.ts:5-10 | a line of `n` hashes, a space and a title, anywhere between other lines, becomes the level-`n` heading, and the lines before and after it are rendered as on their own |
| MarkdownProperties.LineInText | src/utils/markdown.ts:5-10 | a line rendered as `h` on its own is rendered as `h` between other lines |
| MarkdownProperties.LineKept | src/utils/markdown.ts:5-10 | a line that opens with no `#` run of length one to six followed by a space is left exactly as it is |
| MarkdownProperties.StarBoldPass | src/utils/markdown.ts:13 | `**t**` becomes `<strong>` around `t` |
| MarkdownProperties.LaterEmphasisKeeps | src/utils/markdown.ts:14-18 | the later emphasis passes leave text without `*` or `_` alone |
| MarkdownProperties.BoldBeforeItalic | src/utils/markdown.ts:13-18 | `**t**` ends up as `<strong>`, not `<em>`, because bold runs first |
| MarkdownProperties.RenderEmpty | src/utils/markdown.ts:53-56 | the empty text renders as `<p class="mb-2"></p>` |
| ListNesting.BulletPassExample | src/utils/markdown.ts:30-37 | on "- a", newline, "1. b" the bullet pass leaves the numbered line and appends `<ul>` right after it, on the same line |
| ListNesting.NumberedTakesAll | src/utils/markdown.ts:40-47 | a numbered item at the end swallows the rest of its line into its `<li>` |
| ListNesting.ListsAsWritten | src/utils/markdown.ts:30-47 | as written, "- a", newline, "1. b" gives an `<ol>` whose only item holds the whole `<ul>` |
| ListNesting.CorrectedListsShape | src/utils/markdown.ts:30-47 | the corrected list step deletes both kinds of list lines first and then appends the `<ul>` and then the `<ol>` |
| ListNesting.CorrectedListsExample | src/utils/markdown.ts:30-47 | corrected, the same text gives `<ul>` with "a" followed by `<ol>` with "b" |
| ListNesting.CorrectedRenderNoNewline | src/utils/markdown.ts:50-51 | the corrected renderer leaves no `\n` either |
| FileParser.EscapeHtml | src/utils/fileParser.ts:66-75 | the escaped text is never shorter than the input and holds none of `<`, `>`, `"`, `'` |
| FileParser.EscapeAppend | src/utils/fileParser.ts:74 | escaping works character by character, in order: it commutes with concatenation |
| FileParser.EscapeUnchanged | src/utils/fileParser.ts:74 | the text is returned unchanged exactly when it has none of the five special characters |
| FileParser.EscapeGrows | src/utils/fileParser.ts:67-74 | a text with a special character comes back strictly longer |
| FileParser.UnescapeEscape | src/utils/fileParser.ts:67-74 | the escaping is single-pass: decoding the five entities gives the text back |
| FileParser.NonBlankRows | src/utils/fileParser.ts:35 | exactly the rows with a cell that is non-blank after trimming are kept |
| FileParser.NonBlankRowsAppend | src/utils/fileParser.ts:35 | the kept rows keep their order |
| FileParser.NonBlankRowsKeepAll | src/utils/fileParser.ts:35 | rows that all have content are all kept |
| FileParser.StrRows | src/utils/fileParser.ts:33 | the CSV rows become string cells, cell for cell |
| FileParser.ParseFile | src/utils/fileParser.ts:5-63 | a read error gives "File reading error"; `.xlsx` does the workbook path (headers from record 0 as text, data from record 1 on, a thrown error as "File parsing error: …" or "Unknown error"); otherwise `.csv` does the CSV path (record 0 as headers, blank rows dropped, "CSV parsing error: …"); anything else is "Unsupported file format"; no records give empty headers and data |
| FileParser.CsvRowsHaveContent | src/utils/fileParser.ts:32-35 | every CSV data row has content and is a record after the header, and every such record with content is a data row |
| ChatInterface.ClassifyPriority | src/components/ChatInterface.tsx:63-72 | an error payload is handled as an error even with questions; a payload with questions is never a strategy or unknown; a strategy is exactly `type == 'Strategy'` without questions |
| ChatInterface.QueryFromInput | src/components/ChatInterface.tsx:104-105 | a query from the input box is empty exactly when the box is all white space, and otherwise has no white space at either end |
| ChatInterface.QueryPrefersCustom | src/components/ChatInterface.tsx:104 | a non-empty custom message is the query whatever the input; an empty one falls back to the input |
| ChatInterface.UserContents | src/components/ChatInterface.tsx:92-100 | the user texts are at most as many as the messages; every user message contributes its text, and every text comes from a user message |
| ChatInterface.UserContentsAppend | src/components/ChatInterface.tsx:92-100 | appending a bubble adds its text to the user's texts exactly when it is the user's |
| ChatInterface.ChatSession.constructor | src/components/ChatInterface.tsx:23-52 | the chat starts empty with the predefined form shown, "Connecting..." and a connecting socket, or "Failed to connect" and no socket when creating it throws |
| ChatInterface.ChatSession.OnOpen | src/components/ChatInterface.tsx:53-57 | the connection opens: connected, "Connected to chat", nothing else changes |
| ChatInterface.ChatSession.OnClose | src/components/ChatInterface.tsx:75-79 | the socket is closed for good: not connected, "Disconnected from chat", nothing else changes |
| ChatInterface.ChatSession.OnError | src/components/ChatInterface.tsx:81-85 | not connected, "WebSocket error occurred", the socket closed, nothing else changes |
| ChatInterface.ChatSession.AddMessage | src/components/ChatInterface.tsx:92-101 | exactly one bubble is appended; earlier ones and every other field are unchanged |
| ChatInterface.ChatSession.OnMessage | src/components/ChatInterface.tsx:59-73 | a frame that fails to parse changes nothing and leaves the spinner spinning; a `null` frame stops the spinner and changes nothing else; every parsed reply stops the spinner; an error appends "Error: m" (not the user's, not markdown) and sets "Chat error: m"; questions replace the suggestions and leave the messages; a strategy appends its body as markdown; anything else appends "Unknown message type: …" |
| ChatInterface.ChatSession.TakeBranch | src/components/ChatInterface.tsx:63-72 | the branch on a parsed payload, in the source's order of tests, leaving the spinner, the input, the socket, the form flag and the frames sent unchanged |
| ChatInterface.ChatSession.SendMessage | src/components/ChatInterface.tsx:103-114 | an empty query or a socket that is not open changes nothing; otherwise one user bubble equal to the query is appended and sent, the input is cleared, the spinner starts and the form is hidden, earlier bubbles unchanged |
| ChatInterface.ChatSession.SetInput | src/components/ChatInterface.tsx:221 | typing replaces the input and nothing else |
| ChatInterface.ChatSession.Deliver | src/components/ChatInterface.tsx:109-113 | once the guard has passed: the query is appended as a user bubble and to the frames sent, the input is cleared, the spinner starts and the form is hidden, the connection untouched |
| ChatInterface.ChatSession.HandleKeyPress | src/components/ChatInterface.tsx:116-121 | Enter without Shift is the send of the trimmed input: nothing changes when it is blank or the socket is not open; otherwise one user bubble holding it is appended and sent, the box is cleared, the spinner starts and the form is hidden; any other key changes nothing |
| ChatInterface.ChatSession.HandleQuestionClick | src/components/ChatInterface.tsx:129-132 | a server suggestion is copied into the box, not sent |
| ChatInterface.ChatSession.HandlePredefinedQuestionSubmit | src/components/ChatInterface.tsx:103-136 | it is `sendMessage` with the composed question as the custom message: a non-empty question is sent verbatim when the socket is open; an empty one falls back to the trimmed input box; when the query is empty or the socket not open nothing changes; the suggestions, the connection and the status are never touched |
| PortfolioAIChat.App.constructor | src/components/PortfolioAIChat.tsx:13-15 | no session, no data, upload screen |
| PortfolioAIChat.App.HandleUploadSuccess | src/components/PortfolioAIChat.tsx:17-21 | session, data and chat flag are set together, and the invariant is kept |
| PortfolioAIChat.App.HandleBackToUpload | src/components/PortfolioAIChat.tsx:23-27 | the three fields are reset together to null, null and false |
| PortfolioAIChat.App.Content | src/components/PortfolioAIChat.tsx:50-63 | the chat shows exactly when the flag is set, with a session id that is never null; the preview under the upload form is never rendered |
| DataPreview.PreviewRows | src/components/DataPreview.tsx:11 | the preview is the first min(10, n) rows, in order |
| DataPreview.RowsAccounted | src/components/DataPreview.tsx:61-65 | shown and hidden rows add up to every row, and the hidden ones are those after the preview |
| DataPreview.CaptionCounts | src/components/DataPreview.tsx:21 | the caption reads "Showing k of n rows" with k = min(10, n), and names n twice for ten rows or fewer |
| DataPreview.Footer | src/components/DataPreview.tsx:61-67 | the footer is there exactly when n > 10, and reports n − 10 more rows |
| DataPreview.ShownCell | src/components/DataPreview.tsx:52 | a falsy cell (empty string or 0) shows as "-", any other as its text; no cell shows empty |
| DataPreview.ShownRow | src/components/DataPreview.tsx:47-54 | a row shows cell by cell, each cell non-empty |
| DataPreview.Body | src/components/DataPreview.tsx:40-56 | the table body is the preview rows, displayed, in order |

## Left out

- The socket, the file reader, `fetch`, `JSON.parse`, `JSON.stringify` and the workbook and CSV libraries. These are I/O or foreign code. Their outcomes are parameters:
  - the decoded payload and its serialisation for `onmessage`;
  - whether creating the socket threw;
  - whether the read succeeded;
  - the records or error of each library. Blank-line skipping is the CSV library's own option, so its output is taken as given.
- The socket's own guarantee that `open` fires once and only while connecting is a precondition of `ChatInterface.ChatSession.OnOpen`. After a close or an error the socket is closed and never comes back, because the component only reconnects when the session changes.
- ChatInterface.ReadyState: it has no `CLOSING` state. The model's socket leaves `Open` only in OnClose and OnError, but a browser sets `readyState` to closing before `close` fires. So in the source the send guard at src/components/ChatInterface.tsx:105 can refuse a send while the model's socket still reads open.
- PortfolioAIChat.App.Content: that the preview under the upload form is never rendered needs the three setters of src/components/PortfolioAIChat.tsx:17-21 to commit as one update. They are called after an `await` (src/components/FileUpload.tsx:55), so this relies on React 18's automatic batching. The entry point that creates the React root is not part of this model.
- Message ids and timestamps from `Date.now()`, and scrolling and focus handling. These are nondeterministic or UI-only.
- Closing the socket on unmount. It is component teardown; no state is read after it.
- The dropdown open/closed flags, the disabled states of the input and the send buttons, icons and CSS classes. These are UI-only.
- FileUpload, ChatMessage, Header, Hero, Features, Testimonials and the Tailwind config. These are upload plumbing, presentation or static markup.
- Non-integer numbers in cells.
  - Cells are `Str` or `Num` with an integer value.
  - `String(n)` is modelled for integers only.
  - IntToString prints every digit of an unbounded integer. JavaScript numbers lose precision above 2^53, and `String(n)` switches to exponent form ("1e+21") from 10^21 on. This affects spreadsheet headers (src/utils/fileParser.ts:23) and preview cells (src/components/DataPreview.tsx:52).
  - `NaN` is not modelled as a falsy cell.
  - `undefined` entries of sparse spreadsheet rows are not modelled.
- A payload without a `message` field. The model's payload always has a text there; JavaScript would print `undefined`.
- Strings.ToLower: it is ASCII only. Other letters are left as they are, whereas JavaScript lower-cases them all.
- Strings.Trim: it strips the full JavaScript white-space set (the line terminators, the Unicode space separators and the byte order mark), not just ASCII. This matches the language definition of `trim` and `\s`.
- Strings.Less: it compares characters as Unicode code points, while JavaScript's default `sort` compares UTF-16 code units. The two orders differ only when a character above U+FFFF is compared with one in U+E000–U+FFFF.
- JavaScript's regular-expression engine as such is not modelled.
  - Each pass is a scan written for its own pattern.
  - Unicode case-insensitivity (`i`) does not matter for these patterns and is not modelled.
- The link pass and the two code passes are modelled as scans. No property is stated about them beyond their effect on the whole renderer (no newline, starts with `<`).

## Findings

| source | as written | input that shows it | evidently intended | confidence | as-written member | corrected member |
|---|---|---|---|---|---|---|
| src/utils/markdown.ts:30-47 | the bullet pass appends its `<ul>` at the end of the text before the numbered pass runs; when the text ends on a numbered item, that item's `(.*)$` takes the appended `<ul>` as part of its content | "- a", a newline, "1. b" | one `<ul>` holding "a" followed by one `<ol>` holding "b" | not executed | ListNesting.ListsAsWritten | ListNesting.CorrectedListsExample |

`Markdown.Lists` and `Markdown.Render` model the code as written. The
corrected list step, `ListNesting.CorrectedLists`, deletes both kinds of list
lines before appending either block. `ListNesting.CorrectedListsShape` states
its general shape, and `ListNesting.CorrectedRender` uses it.
