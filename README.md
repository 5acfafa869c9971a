# C-Genie retrieval and chat-room core, in Dafny

C-Genie is a Streamlit chat tutor for a C-programming course text. It answers
a question by doing four things:

- it cuts the course PDF's text into overlapping windows;
- it ranks those windows against the question, using a string-similarity
  ratio plus a fixed keyword boost;
- it builds a request from the eight best windows, the room's conversation so
  far, the question and an optional extra instruction;
- it sends the request to a hosted language model and falls back to a fixed
  apology when no answer comes back.

Conversations live in named rooms held in the session state.

This project models that logic, all of it in `streamlit_app.py`:

- `chunker.dfy` (module `Chunker`) covers `split_chunks`. The cursor loop is
  the method `SplitChunks`, proved equal to the function `Chunks`. Lemmas give
  the exact shape of every window, show that removing the overlaps gives the
  text back, and show when the loop ends.
- `ranker.dfy` (module `Ranker`) covers `search_chunks`. There is the
  per-chunk scoring loop (`KeywordScore`) and the in-place sort of
  `(score, chunk)` pairs (`SortDescending`, an insertion sort on an `array`).
  A uniqueness lemma shows the sort equals the functional descending order
  `SortDesc`. Then comes the slice `[:top_k]`. `SearchChunks` is proved equal
  to `SearchResult`. Lemmas cover its length, membership, order,
  best-first selection and permutation.
- `prompt.dfy` (module `Prompt`) covers the pure part of `generate_response`:
  - the `"\n\n".join` context;
  - the history loop (`RenderHistory`, proved equal to `HistoryText`);
  - the request template;
  - the fallback on the model's response.

  `GenerateResponse` chains these steps. The model call is its parameter
  `answer`.
- `rooms.dfy` (module `Rooms`) covers the room bookkeeping. The class
  `Session` holds `chats` (room name to messages) and `active` (the room on
  screen). Its methods are the sidebar's create, delete and clear buttons, the
  room picker, and one chat turn. Each method keeps the invariant `Valid()`:
  the default room "ห้องเริ่มต้น" exists and the active room is a key.
- `strings.dfy` (module `Strings`) holds the Python string built-ins the code
  relies on:
  - `strip`, with the exact whitespace set of `str.isspace`;
  - `lower`;
  - the `in` substring test;
  - `join`;
  - code-point string comparison.

Behaviour of the code that a reader might not expect, and that the model
keeps:

- **Ties between equal scores.** `search_chunks` sorts `(score, chunk)` tuples
  with `reverse=True`. Equal scores are therefore ordered by chunk text,
  descending, not by input position (`Ranker.SearchOrdered`).
- **Non-positive `top_k`.** `top_k = 0` gives nothing. A negative `top_k`
  drops that many chunks from the end (`Ranker.SearchLength`).
- **No overlap guard.** `split_chunks` does not check `overlap < size`. With
  `overlap >= size` the loop never ends unless the whole text fits in one
  window. The model's `requires` clause is exactly that condition,
  `Chunker.Terminates`, and `Chunker.TerminatesIff` proves it is the right one.
- **Blank replies.** The reply is `response.text.strip()`. It is empty when
  the model's text is all whitespace (`Prompt.ReplyFacts`).
- **The current question in the history.** The question is stored in the room
  (line 223) before `generate_response` reads the room (line 227). So the
  request's history section already ends with the question, which also appears
  under its own heading (`Rooms.Session.Turn`).
- **A failing model call.** An exception from the model call is not caught. The
  question stored at line 223 then stays in the room with no answer
  (`Rooms.Session.Turn`).
- **Blank room names.** Creating a room refuses a name that is blank after
  `strip()`, before it checks for a duplicate (`Rooms.CreateOutcomeIff`).

## Model

| member | source | states |
|---|---|---|
| `Chunker.SplitChunks` | streamlit_app.py:79-87 | the cursor loop returns exactly the windows `Chunks(text, size, overlap)`, for every input on which the loop ends |
| `Chunker.ChunkShape` | streamlit_app.py:79-87 | window `i` is `text[s : min(s+size, len(text))]` with `s` the start of window `i` (`i*(size-overlap)` by `WindowStartProduct`); every window but the last has exactly `size` characters; with `overlap >= 0` the last window's end bound is `len(text)`; the empty text gives `[]` and only it does |
| `Chunker.WindowStartProduct` | streamlit_app.py:84-86 | window `i` starts `i*(size-overlap)` characters after the first |
| `Chunker.ChunkFromAt` | streamlit_app.py:81-86 | the same closed form from any cursor position; a window is followed by another only if it stops short of the end, and always when in addition the next cursor `end - overlap` lies inside the text |
| `Chunker.CursorIsWindowStart` | streamlit_app.py:81-86 | window `i` starts where the termination lemmas' cursor `CursorAfter` is after `i` iterations, and every window but the last leaves the loop running |
| `Chunker.CursorStopsAfterLastWindow` | streamlit_app.py:81-86 | after as many iterations as there are windows, that cursor meets the exit condition |
| `Chunker.Reconstruction` | streamlit_app.py:82-86 | for `0 <= overlap < size`, the first window followed by every later window minus its first `overlap` characters is the text, exactly |
| `Chunker.TailsSpellSuffix` | streamlit_app.py:82-86 | from any cursor that lies `overlap` inside the text, the windows minus their overlaps spell the rest of the text |
| `Chunker.AdjacentOverlap` | streamlit_app.py:84-86 | each later window starts with the last `overlap` characters of the window before it |
| `Chunker.CursorAdvances` | streamlit_app.py:86 | with `overlap < size`, every iteration that does not stop moves `start` strictly forward |
| `Chunker.CursorStalls` | streamlit_app.py:81-86 | with `overlap >= size` and a text longer than one window, `start` never rises above 0 and no window ever reaches the end, so the loop never exits |
| `Chunker.CursorReachesEnd` | streamlit_app.py:81-86 | with `overlap < size`, the cursor after `k` steps is at least `k` until a window reaches the end, so the loop ends within `len(text)` iterations |
| `Chunker.TerminatesIff` | streamlit_app.py:81-86 | some number of iterations reaches a last window exactly when `Terminates` holds; so the loop runs forever exactly when `overlap >= size` and the text is longer than `size` |
| `Chunker.ExampleSplit` | streamlit_app.py:79-87 | "ABCDEFGHIJ" with size 4 and overlap 1 gives `["ABCD", "DEFG", "GHIJ"]` |
| `Ranker.KeywordScore` | streamlit_app.py:98-103 | the scoring loop gives `ratio(lower(query), lower(c))` plus 0.08 for each keyword found in `c` |
| `Ranker.Hits` | streamlit_app.py:100-102 | the number of boosts never exceeds the number of keywords |
| `Ranker.HitsIsCount` | streamlit_app.py:100-102 | for a keyword list without repeats, the boost count is the number of distinct keywords that occur in the chunk |
| `Ranker.FoundSnoc` | streamlit_app.py:100-101 | adding one keyword to the list adds it to the found set exactly when it occurs in the chunk |
| `Ranker.BoostKeywordsDistinct` | streamlit_app.py:95 | the nine boost keywords are pairwise different |
| `Ranker.ScoreBounds` | streamlit_app.py:99-103 | a score is the ratio plus 0.08 per distinct keyword found, so it lies within 1 above that boost and between 0 and 1.72 |
| `Ranker.GeqTotal` | streamlit_app.py:105 | any two `(score, chunk)` pairs are comparable |
| `Ranker.GeqAntisymmetric` | streamlit_app.py:105 | two pairs each at least the other are equal |
| `Ranker.GeqTransitive` | streamlit_app.py:105 | the tuple order is transitive |
| `Ranker.InsertSorted` | streamlit_app.py:105 | inserting a pair into a descending list keeps it descending and adds exactly that pair |
| `Ranker.SortDescCorrect` | streamlit_app.py:105 | `SortDesc` is descending and a permutation of its input |
| `Ranker.SortedUnique` | streamlit_app.py:105 | two descending lists with the same pairs are equal, so the sorted order is unique |
| `Ranker.HeadIsGreatest` | streamlit_app.py:105 | the head of a descending list is at least every other element |
| `Ranker.DropHead` | streamlit_app.py:105 | dropping the head of a list removes one copy of it, and keeps a descending list descending |
| `Ranker.SortDescending` | streamlit_app.py:105 | the in-place sort leaves the array equal to `SortDesc` of its old contents |
| `Ranker.InsertAt` | streamlit_app.py:105 | one insertion step extends the sorted prefix by one, rearranges only the first `i + 1` elements among themselves, and leaves the rest of the array as it was |
| `Ranker.SearchChunks` | streamlit_app.py:90-106 | scoring, sorting and slicing return `SearchResult(ratio, query, chunks, top_k)` |
| `Ranker.RankingFacts` | streamlit_app.py:98-105 | the ranking is descending, holds the same pairs as the scored list, and each of its pairs is the key of an input chunk |
| `Ranker.SearchLength` | streamlit_app.py:106 | for `top_k >= 0` the result has `min(top_k, len(chunks))` texts; for negative `top_k` it has `max(len(chunks)+top_k, 0)`; no chunks give `[]` |
| `Ranker.SearchMembership` | streamlit_app.py:106 | every returned text is one of the chunks |
| `Ranker.SearchOrdered` | streamlit_app.py:105-106 | the result is non-increasing in score, and among equal scores the texts come in descending order |
| `Ranker.SearchKeepsBest` | streamlit_app.py:105-106 | every chunk left out has a `(score, text)` pair no greater than that of every returned chunk |
| `Ranker.TextsConcat` | streamlit_app.py:106 | taking the texts commutes with concatenation |
| `Ranker.TextsPermutation` | streamlit_app.py:106 | rearranging the pairs rearranges their texts |
| `Ranker.SearchPermutation` | streamlit_app.py:105-106 | with `top_k >= len(chunks)` the result is a permutation of the chunks |
| `Ranker.BestChunkFirst` | streamlit_app.py:105-106 | a chunk that scores strictly above every other comes first whenever `top_k >= 1` |
| `Prompt.RenderHistory` | streamlit_app.py:117-120 | the `history_text +=` loop returns `HistoryText(messages)` |
| `Prompt.LineShape` | streamlit_app.py:119-120 | a line starts with "ผู้ใช้: " exactly when the role is "user" and with "C-Genie: " otherwise, holds the content, and ends in a newline |
| `Prompt.HistoryAppend` | streamlit_app.py:117-120 | the history of a room is the history of any first part of it followed by that of the rest, and an empty room gives an empty history |
| `Prompt.TemplateLayout` | streamlit_app.py:122-134 | the request holds the context, the history, the question and the add-on in that order, each straight after its own heading, and ends in a newline |
| `Prompt.TemplateInjective` | streamlit_app.py:122-134 | given the lengths of the first three fields, the request determines all four fields |
| `Prompt.EmptyHistorySection` | streamlit_app.py:117-134 | for an empty room the history heading is followed straight by the question heading |
| `Prompt.ReplyFacts` | streamlit_app.py:137 | without a usable first candidate the reply is exactly the fallback text; otherwise it is the text of the first candidate's parts minus surrounding whitespace; it never starts or ends with whitespace |
| `Prompt.GenerateResponse` | streamlit_app.py:111-137 | the reply is the fallback applied to the model's answer to the request built from the top 8 windows (size 1200, overlap 200), the history and the add-on; no reply when the call raises |
| `Strings.StripShape` | streamlit_app.py:137 | `strip` keeps a contiguous piece of the text and removes only whitespace, on both ends |
| `Strings.StripEmptyIff` | streamlit_app.py:162 | a name strips to "" exactly when every character is whitespace |
| `Strings.StripEnds` | streamlit_app.py:137 | the stripped text is empty or starts and ends with a non-whitespace character |
| `Strings.StripIdempotent` | streamlit_app.py:137 | stripping twice changes nothing more |
| `Strings.BlankTrimStart` | streamlit_app.py:162 | an all-whitespace string loses everything when its leading whitespace is cut |
| `Strings.TrimStart` | streamlit_app.py:162 | cutting leading whitespace leaves a suffix that starts with a non-space, after a blank prefix |
| `Strings.TrimEnd` | streamlit_app.py:162 | cutting trailing whitespace leaves a prefix that ends with a non-space, before a blank suffix |
| `Strings.LowerFacts` | streamlit_app.py:99 | `lower()` leaves no ASCII capital, leaves a string without one unchanged (and only such a string), and is idempotent |
| `Strings.ContainsIff` | streamlit_app.py:101 | `kw in c` holds exactly when `kw` occurs in `c` at some position |
| `Strings.ConcatAppend` | streamlit_app.py:120 | concatenating two lists of lines concatenates their texts |
| `Strings.JoinConcat` | streamlit_app.py:114 | joining two non-empty lists puts one separator between their joins |
| `Strings.JoinLength` | streamlit_app.py:114 | the joined context has every chunk character plus one separator between neighbours |
| `Strings.TextLeTotal` | streamlit_app.py:105 | any two strings are comparable in Python's code-point order |
| `Strings.TextLeAntisymmetric` | streamlit_app.py:105 | strings each at most the other are equal |
| `Strings.TextLeTransitive` | streamlit_app.py:105 | the string order is transitive |
| `Rooms.CreateOutcomeIff` | streamlit_app.py:161-170 | a room is created exactly when the name has a non-whitespace character and is not already a room; a blank name is refused first, then a duplicate |
| `Rooms.Session.constructor` | streamlit_app.py:151-154 | a new session has only the empty default room, and it is active |
| `Rooms.Session.Select` | streamlit_app.py:156-158 | picking an existing room makes it active and changes no messages |
| `Rooms.Session.Create` | streamlit_app.py:160-170 | on success an empty room is added and made active; otherwise the rooms and the active room are unchanged; the invariant holds |
| `Rooms.Session.DeleteActive` | streamlit_app.py:172-178 | the default room is never removed; any other active room is removed, only that key, and the default room becomes active |
| `Rooms.Session.ClearActive` | streamlit_app.py:183-185 | only the active room is emptied |
| `Rooms.Session.Turn` | streamlit_app.py:221-235 | a turn, which the chat box starts only for a non-empty question, appends exactly the user message and then the model message to the active room, and the reply is built from the room's old messages plus the new question; when the call raises, only the user message is appended |

## Left out

- `load_pdf` (streamlit_app.py:68-74) extracts text with the PDF library and caches it. That is file I/O and a foreign library, so the document text is a parameter of `GenerateResponse` and `Turn`.
- The model configuration, the safety settings, the system prompt and `model.generate_content` (streamlit_app.py:14-63, 136) are left out. They are a remote service plus configuration data. The call is the function parameter `answer`, so the model treats the service as deterministic for the one call it makes. Its result is either a response or an exception (`Prompt.Call`); which errors occur, and when, is not modelled. The hard-coded fallback API key (streamlit_app.py:15) is a credential committed to the repository, not logic.
- The internals of `difflib.SequenceMatcher.ratio` (streamlit_app.py:99) are left out. The ratio is the function parameter `ratio`, and only `ScoreBounds` assumes its range is [0, 1]. So nothing is proved that depends on its values, such as an identical chunk scoring 1.0.
- Scores are exact reals: the float rounding of the repeated `score += 0.08` (streamlit_app.py:102) is not modelled.
- `Strings.Lower`: only ASCII `A`-`Z` are lower-cased. Python's `str.lower` also maps other cased letters (Latin-1, Greek, Cyrillic, …). The Thai text of the course has no case.
- `Prompt.Text`: `response.text` is the first candidate's part texts joined. The client library raises instead for some responses, for example one whose parts carry no text. The model counts such a raise as `Raised`, which `answer` may return. It does not say which responses raise.
- `Chunker.SplitChunks`: `size` is a natural number. A negative window size would make Python slice with negative indices, which the model does not cover.
- The order of the keys of `st.session_state["chats"]`, as Python's insertion-ordered dict keeps them, is left out. Only the room picker's display order depends on it, and `chats` is a `map`.
- All widgets, warnings, `st.rerun`, the spinner, the welcome text and the character-by-character reveal with `time.sleep` (streamlit_app.py:142-233) are presentation only. They do not change the stored messages.
- `Ranker.SearchKeepsBest`: the statement is about chunks absent from the result. When the input holds the same text more than once, it says nothing about how many copies are kept. `SearchPermutation` covers the copies only when every chunk is asked for.
