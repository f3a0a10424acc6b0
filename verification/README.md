# palabros — a Dafny model of the message aligner, the token builder and the session header

palabros is a Spanish-practice chat. A bot reply arrives with a list of
annotations, each an offset into the reply, a short explanatory blurb and,
optionally, the literal word. The frontend then renders the reply with a
tooltip on each annotated word. This project models three pieces of that
system and proves what they promise:

- **`TokenizedMessage`** (`tokenized_message.dfy`): the frontend aligner. It
  does four things:
  - sorts the annotations stably by offset;
  - builds an offset→annotation map in which later writes win, writing first
    each annotation's own offset and then every whole-word occurrence of its
    word;
  - splits the reply on `/(\s+|[.,!?;:¿¡])/`, keeping the delimiters;
  - decides part by part whether to show a tooltip.
- **`Sessions`** (`sessions.dfy`): the pure steps of the backend message route.
  - `build_token_metadata` widens each parser offset to the maximal
    alphanumeric run around it and keeps the run only if it has a letter.
  - The history window keeps the last five lines and hands the older ones to
    the summariser.
  - Prompt assembly builds the text sent to the model.
  - `post_message` rejects an empty message (400) before anything else, then
    a session the caller does not own (404).
- **`SessionHeader`** (`session_header.dfy`): the header's state machine over
  `(isEditing, editName, isDeleting)`.
  - Renaming is guarded: a blank or unchanged name sends nothing, otherwise
    the trimmed name is sent.
  - Deleting takes two clicks.
  - Enter saves and Escape cancels.
  - A trace semantics, `Run`, supports statements about whole sessions of
    clicks.
- **`Text`** (`text.dfy`) holds what the modules share: the ECMAScript `\s`
  and `\w` classes, `String.prototype.trim`, concatenation and Python's
  `str.join`. **`Wrappers`** (`wrappers.dfy`) holds `Option` and `Result`.

Each `fetch`, the chat model, the summariser and the sentence parser is a
parameter: a request outcome (`Ok`, `NotOk`, `Threw`) chosen by the
environment, or a function passed in.

An empty message renders as one empty plain part, not as zero parts: the split
of `""` is `[""]`, and with no annotations the whole content is a single span
(`TokenizedMessage.EmptyContentOnePart`).

## Model

| member | source | states |
|---|---|---|
| TokenizedMessage.Align | frontend/src/components/tokenized-message.tsx:16-83 | The rendered parts always concatenate back to the content. Missing or empty metadata gives exactly one plain part holding the content. Otherwise the parts are exactly the delimiter split of the content. |
| TokenizedMessage.EmptyContentOnePart | frontend/src/components/tokenized-message.tsx:54 | An empty message renders as one empty plain part, with or without annotations. |
| TokenizedMessage.Split | frontend/src/components/tokenized-message.tsx:54 | The split alternates text parts (no delimiter inside, possibly empty) with delimiter parts (one punctuation mark or a run of spaces). It has an odd count and never puts two space runs around an empty text part. It is lossless: the parts concatenate to the input. |
| TokenizedMessage.SplitUnique | frontend/src/components/tokenized-message.tsx:54 | The split is the only sequence of that shape that concatenates to the input, so the shape fully characterises `String.prototype.split` with this pattern. |
| TokenizedMessage.IndexOf | frontend/src/components/tokenized-message.tsx:37 | `indexOf(word, from)` returns the first occurrence at or after `from`, or -1 exactly when there is none. |
| TokenizedMessage.ScanWord | frontend/src/components/tokenized-message.tsx:33-49 | The search loop ends, because `searchIndex` strictly increases. Afterwards the map's keys are the old keys plus every whole-word occurrence at or after the start, and those offsets map to the token while every other key keeps its value. |
| TokenizedMessage.WholeWordExample | frontend/src/components/tokenized-message.tsx:41-46 | In "a casa" the only whole-word occurrence of "a" is at offset 0. The boundary test rejects the two occurrences that touch letters of "casa". |
| TokenizedMessage.Register | frontend/src/components/tokenized-message.tsx:29-51 | One token's writes add exactly the offsets it claims: its own index, plus, if its word is non-empty, every whole-word occurrence. Those offsets map to the token and every other key is unchanged. |
| TokenizedMessage.BuildMapLastWriteWins | frontend/src/components/tokenized-message.tsx:29-51 | An offset is a key of the finished map exactly when some token claims it. Its value is the last token, in processing order, that claims it. |
| TokenizedMessage.SortByIndex | frontend/src/components/tokenized-message.tsx:23 | The sort gives ascending indices and a permutation of the input. It is stable: for every index the tokens carrying it keep their relative order. |
| TokenizedMessage.InsertByIndex | frontend/src/components/tokenized-message.tsx:23 | Inserting a token after all tokens with a smaller or equal index keeps the sequence sorted, adds exactly that token, and places it after every earlier token with the same index. |
| TokenizedMessage.WordPartTests | frontend/src/components/tokenized-message.tsx:65 | The model's word-part test is equivalent to `part.trim().length > 0 && /\w/.test(part)`, and also to `/\w/.test(part)` alone: a part holding a word character is never blank. |
| TokenizedMessage.OffsetIsPrefixLength | frontend/src/components/tokenized-message.tsx:59-80 | `currentIndex` at part i equals the total length of parts 0..i-1. |
| TokenizedMessage.OffsetStep | frontend/src/components/tokenized-message.tsx:79 | Advancing by `part.length` moves from the start of part i to the start of part i+1, which never passes the end of the content. |
| TokenizedMessage.Decorate | frontend/src/components/tokenized-message.tsx:59-80 | Each rendered part has the text of its split part. It is annotated exactly when its start offset is a key of the map and it is a word part, and it then shows the blurb stored at that offset. |
| TokenizedMessage.AlignAnnotation | frontend/src/components/tokenized-message.tsx:63-65 | Stated against the raw annotations: a part is annotated iff it is a word part and some annotation claims its start offset, by index or by whole-word match. Its blurb is that of the last such annotation in stable ascending-index order. |
| TokenizedMessage.StaleIndicesIgnored | frontend/src/components/tokenized-message.tsx:59-65 | Annotations whose offset is at or past the end of the content, and which carry no word, leave every part plain. |
| TokenizedMessage.OffPartBoundaryIgnored | frontend/src/components/tokenized-message.tsx:59-65 | If no annotation claims the start offset of any part, every part is plain, whatever offsets the annotations hold. |
| TokenizedMessage.EmptyPartsPlain | frontend/src/components/tokenized-message.tsx:65 | The empty parts the split produces between adjacent delimiters are never annotated. |
| Text.Trim | frontend/src/components/tokenized-message.tsx:65 | `trim()` yields the infix that starts at the first non-space, begins and ends with a non-space, and leaves only spaces outside it. It is empty exactly when the input is all spaces. |
| Sessions.RunStart | backend/sessions/sessions.py:126-127 | The left loop stops at the start of the alphanumeric run that ends at the offset: everything between is alphanumeric, and the character before it is not. |
| Sessions.RunEnd | backend/sessions/sessions.py:130-131 | The right loop stops at the end of the alphanumeric run that starts at the offset: everything between is alphanumeric, and the character at the stop is not. |
| Sessions.Widen | backend/sessions/sessions.py:120-139 | An offset at or past the end of the text yields nothing. Otherwise the entry, when there is one, is the word around the offset with the pair's blurb. The word is a slice of the text at its index and spans the offset, which may sit just after it. It is all alphanumeric, holds a letter, and is maximal on both sides. When no such word exists, nothing is emitted. |
| Sessions.WordAroundIsRun | backend/sessions/sessions.py:122-131 | A word around an offset is unique: it is exactly the run the two loops find. |
| Sessions.AlphaIsAlnum | backend/sessions/sessions.py:126-134 | Every letter is alphanumeric. |
| Sessions.BuildTokenMetadata | backend/sessions/sessions.py:108-144 | A parser failure gives an empty list. Otherwise the output is no longer than the parser's list. |
| Sessions.CollectAppend | backend/sessions/sessions.py:117-141 | The output preserves input order: the output for a concatenation of pair lists is the concatenation of their outputs. |
| Sessions.CollectOne | backend/sessions/sessions.py:117-139 | A single pair yields at most one entry. It yields one exactly when its offset is inside the text and a word lies around it, and that entry is the word around the offset with the pair's blurb. |
| Sessions.CollectSound | backend/sessions/sessions.py:117-139 | Every emitted entry is the word around the in-range offset of some input pair, and carries that pair's blurb. |
| Sessions.OutOfRangeDropped | backend/sessions/sessions.py:120 | Pairs whose offsets are all at or past the end of the text produce no entries. |
| Sessions.DropLast | backend/sessions/sessions.py:183 | Python `all[:-5]` is the prefix that leaves out the last five, and is empty when there are at most five. |
| Sessions.TakeLast | backend/sessions/sessions.py:184 | Python `all[-5:]` is the suffix of the last min(5, n) elements. |
| Sessions.DropTakeSplit | backend/sessions/sessions.py:181-184 | `all[:-5] + all[-5:] == all` for every list. |
| Sessions.WindowHistory | backend/sessions/sessions.py:181-184 | The recent window holds the last min(5, n) lines. Lines go to the summariser iff n > 5, and then they are the first n-5 lines, which together with the window make up the whole history. |
| Sessions.HistoryLine | backend/sessions/sessions.py:178 | A history line is the sender, then ": ", then the content; given the sender's length, the sender and the content can be read back from it. |
| Sessions.SummaryText | backend/sessions/sessions.py:190 | `summary or "N/A"`: a present, non-empty summary is shown as is; a missing or empty one as "N/A". |
| Sessions.Intro | backend/sessions/sessions.py:187-190 | The intro opens with the persona line naming the dialect and closes with the summary text (or `N/A`) and a full stop. |
| Sessions.PromptLayout | backend/sessions/sessions.py:195-205 | The prompt is the intro, then each recent line preceded by a line break, then a line break and `user: <message>`. |
| Sessions.PromptEnds | backend/sessions/sessions.py:202-205 | The prompt starts with the intro and ends with `user: <message>`. |
| Sessions.PostMessage | backend/sessions/sessions.py:148-227 | A missing or empty message gives 400 "Message text required". Otherwise an unowned session gives 404 "Session not found". Otherwise the route succeeds. It summarises iff the history has more than five lines and stores the user line and then the bot reply with its tokens. It returns the session id, and the prompt it sent ends with the user line. On success the summary covers the lines before the last five, the prompt is built from the intro, the last five lines and the message, the reply is the model's answer to that prompt, and the tokens are built from that reply. |
| Sessions.PostMessagePrompt | backend/sessions/sessions.py:178-205 | The prompt is the intro (with the summary of the older lines, or none), then each of the last min(5, n) history lines in order, preceded by a line break, then a line break and `user: <message>`. |
| Sessions.EmptyMessageFirst | backend/sessions/sessions.py:155-157 | The empty-message rejection depends on nothing else: not on ownership, the profile, the history, nor any external service. |
| Sessions.PostMessageWindow | backend/sessions/sessions.py:180-199 | On success the summariser sees exactly the lines before the recent window. |
| SessionHeader.Init | frontend/src/components/session-header.tsx:15-17 | On mount the header is not editing, not armed, and the input holds the current name. |
| SessionHeader.StartEdit | frontend/src/components/session-header.tsx:127 | The pencil enters editing and keeps the input and the delete arming. |
| SessionHeader.ChangeName | frontend/src/components/session-header.tsx:100 | Typing replaces the input and changes nothing else. |
| SessionHeader.CancelEdit | frontend/src/components/session-header.tsx:79-82 | Cancel restores the input to the current name and leaves editing. |
| SessionHeader.SaveRename | frontend/src/components/session-header.tsx:21-51 | Saving always leaves editing and never touches the delete arming. A blank or unchanged name (untrimmed comparison) sends nothing and restores the input. Otherwise it sends one rename carrying the trimmed name. Success hands that name to the callback and keeps the input; a non-ok response or an exception restores the input. Every name sent is non-blank and already trimmed. |
| SessionHeader.Delete | frontend/src/components/session-header.tsx:53-77 | When unarmed, the click only arms and sends nothing. When armed, it sends exactly one delete: success navigates to /dashboard, and failure disarms. Editing and the input are untouched. |
| SessionHeader.KeyDown | frontend/src/components/session-header.tsx:84-90 | Any key other than Enter or Escape changes nothing and sends nothing. |
| SessionHeader.KeysMatchButtons | frontend/src/components/session-header.tsx:84-90 | Enter behaves exactly like the save button. Escape behaves like cancel and sends nothing. |
| SessionHeader.PaddedNameResent | frontend/src/components/session-header.tsx:22 | Because the guard compares the untrimmed input, the current name with a leading blank passes it, and a rename carrying the trimmed current name is sent; when the current name is already trimmed, that is the unchanged name. |
| SessionHeader.HandleDeletes | frontend/src/components/session-header.tsx:53-77 | Per event, only a delete click touches the delete bookkeeping. It arms, or it sends one request that succeeds (staying armed) or fails (disarming). |
| SessionHeader.DeleteAccounting | frontend/src/components/session-header.tsx:53-77 | Over any sequence of events, 2·failed deletes + successful deletes + (armed ? 1 : 0) equals the number of delete clicks. |
| SessionHeader.DeleteNeedsTwoClicks | frontend/src/components/session-header.tsx:54-57 | Once any delete request has been sent, there have been more delete clicks than delete requests, so the first request needs two clicks. |
| SessionHeader.RenameRequestsWellFormed | frontend/src/components/session-header.tsx:22-40 | Over any sequence of events where the typed names fit the input's 100-character limit, every rename request carries a non-blank, trimmed name of at most 100 characters. |

## Left out

- The per-session chat page, with its optimistic send, create-then-post flow and request-dedup guard, is not modelled. It is effect orchestration around network calls and React state, not a pure transformation.
- spaCy tokenisation and translation (`dictionary`) are an input. The parser's pairs are any list of `(offset, blurb)`; an exception becomes `None`, which gives `[]`. Offsets are natural numbers: a negative offset would hit Python's negative indexing, which spaCy never produces.
- The Gemini chat, the OpenRouter summariser and the HTTP clients are function parameters of `Sessions.PostMessage`. Their failures (`raise_for_status`, network errors, HTTP 500) are not modelled.
- SQL is not modelled: the ownership query becomes a boolean, the history query a list of rows, and the profile row is assumed present. The inserts are recorded as the two stored rows, and transactions are not modelled.
- `json.dumps(user['facts'])` is taken as an already serialised string in `Sessions.Profile`.
- The listing, fetch-one, create, update and delete routes in sessions.py are plain database I/O and are not modelled.
- App wiring, CORS, authentication and presentation-only React (layouts, footer, tooltip) are not modelled.
- Strings are sequences of code points. JavaScript offsets count UTF-16 code units, so characters outside the Basic Multilingual Plane would shift offsets between backend and frontend; the model does not capture that.
- Sessions.PostMessage: `message` is `Option<string>`. In the source, `payload.get("message")` is any JSON value: every falsy value (`0`, `false`, `[]`, `{}`, `null`, `""`) is rejected with 400, and a truthy non-string (a number, a list, an object) is accepted and formatted into the prompt by Python's string conversion. The model covers only absent and string values.
- Sessions.Intro: the profile fields are strings. A NULL `dialect` or `experience_level` column renders as `None` in the prompt; the model does not distinguish NULL from a string.
- Sessions.IsAlpha: `str.isalpha`/`str.isalnum` are modelled over Latin-1 (which covers every Spanish letter). Letters and digits of other scripts count as non-alphanumeric, so the model can split words that Python would keep whole. The proofs rely on nothing about the two classes beyond this Latin-1 reading.
- Text.IsSpace: `\s` and `trim()` use the ECMAScript whitespace and line-terminator set as listed in the standard. `\w` is ASCII `[A-Za-z0-9_]`, as for a regular expression without the `u` flag.
- SessionHeader.Delete: after a successful delete the page navigates away; the model keeps the header armed and lets later events run, which the real unmounted component would not receive.
- Asynchrony: each handler runs to completion before the next event, so interleavings of two in-flight requests (for example, clicking delete again while a request is pending) are not modelled. The `maxLength` of the input is a hypothesis about typed values, not a rule the model enforces.
