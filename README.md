# GGS chatbot core in Dafny

A model of the logic inside the GGS Smart Chatbot (`app.py`, a Streamlit
retrieval-augmented chatbot), with proofs about it. The model has three parts.

- **Knowledge-document parser (`extract_qa`).** It walks the document's
  paragraphs with two variables, the open question `q` and the gathered
  answer lines `a`, and returns the (question, answer) pairs.
  - `QaParser.ExtractQa` is the same loop in imperative Dafny.
  - It is proved equal to `QaParser.QaPairs`, a reference definition over the
    cleaned lines (each paragraph stripped, blank ones dropped). In that
    definition every question line owns the lines up to the next question
    line, and yields a pair when it owns at least one.
  - The properties of the parser are then lemmas about that definition.
- **Retrieval decision.** Given one similarity score per stored pair,
  `np.argmax` picks the first index of the highest score. Its answer is used
  only when that score is strictly above 0.25.
  - The quick-question buttons and `send_message` share this decision,
    `Retrieval.BestMatch`.
  - The scores are an input.
- **Chat turn (`send_message`).** `Chat.ChatSession` holds `chat_history` and
  `chat_input`. `SendMessage` does the following:
  - trims the input, and ignores it when it is blank;
  - appends the user turn;
  - builds the prompt with `Chat.BuildPrompt`: the system instruction, the
    last ten history entries, and a `Company context:` note when the
    retrieved answer is non-empty;
  - appends the stripped reply and clears the input.

  The model's completion is a parameter.

Module layout:
- `text.dfy` holds Python's `str.strip()` and `" ".join`.
- `qa_parser.dfy`, `retrieval.dfy` and `chat.dfy` each hold one of the three
  parts above.

Decisions that follow the code:
- Python's `None` for "no open question" is the empty string. Both are falsy,
  and a stripped question line is never empty.
- `t.lower().startswith("q")` holds exactly when the first character is `q`
  or `Q`, and likewise for `a`/`A`.
- `strip()` removes the characters for which `str.isspace()` holds.

Behaviour of `app.py` that the model keeps:
- Question lines are recognised by their first letter alone (app.py:153).
  Answer lines by theirs (app.py:158).
- A retrieval miss still calls the model, with an empty context and so
  without a context note (app.py:262, 267).
- A failed model call is not caught inside `send_message` (app.py:270-276).
  The user turn stays recorded and the input field keeps its text.
- `np.argmax` on an empty score vector raises (app.py:260). `SendMessage`
  reports this as `RetrievalFailed`, after the user turn has been appended.

## Model

| member | source | states |
|---|---|---|
| `Text.Strip` | app.py:149 | The stripped text has no white space at either end. It is empty exactly when the paragraph is white space only. An already trimmed string is unchanged. |
| `Text.StripIsMiddle` | app.py:149 | The stripped text is the part of the paragraph between a blank prefix and a blank suffix. With `Text.Strip` this means exactly the outer white space is removed. |
| `Text.Join` | app.py:155 | The empty list joins to "" and a single line joins to itself. A joined answer starts with its first line and ends with its last. |
| `Text.JoinAppend` | app.py:165 | Joining two non-empty lists gives their joins with one separator between them. With `Text.Join`'s single-line case this means every line appears in order, with a single space between neighbours. |
| `QaParser.ExtractQa` | app.py:143-167 | The parser loop returns exactly `QaPairs(paragraphs)`, the section-by-section reference reading of the cleaned paragraphs. |
| `QaParser.Clean` | app.py:148-151 | Cleaning keeps at most as many lines as there are paragraphs, each non-empty and trimmed. |
| `QaParser.CleanAppend` | app.py:148-151 | Cleaning works paragraph by paragraph: cleaning a concatenation concatenates the cleaned parts. |
| `QaParser.AppendSection` | app.py:153-156 | Meeting a question line after question `q` and its body lines adds the pair for `q` to the pairs before it. The pair is the body joined by spaces, or nothing when the body is empty. |
| `QaParser.SectionsSplit` | app.py:153-156 | Cutting the cleaned lines just before a question line splits the result into the pairs of each side. |
| `QaParser.SectionsSkipsLeading` | app.py:156-162 | Lines without a question in front of a document add no pair. |
| `QaParser.PairsWellFormed` | app.py:153-165 | Every returned pair has a question starting with `q` or `Q` and a non-empty answer. |
| `QaParser.QuestionsAreAnswered` | app.py:153-165 | The questions returned are, in order, exactly the question lines directly followed by a non-question line. |
| `QaParser.QuestionsInDocumentOrder` | app.py:153-156 | The returned questions are a subsequence of the document's question lines, so there are at most that many pairs. |
| `QaParser.UnansweredQuestionDropped` | app.py:153-165 | A question paragraph followed directly by another question, or by the end, can be deleted without changing the result. |
| `QaParser.LeadingParagraphsIgnored` | app.py:153-162 | Paragraphs before the first question, including ones starting with `a`, contribute nothing. A document without a question yields no pairs. |
| `QaParser.BlankParagraphIgnored` | app.py:149-151 | Inserting a blank or white-space-only paragraph anywhere leaves the result unchanged. |
| `QaParser.ClosingPair` | app.py:158-165 | A last question followed by non-question paragraphs adds one pair. The pair is the stripped question and the stripped non-blank paragraphs joined by single spaces. |
| `Retrieval.ArgMax` | app.py:238-239 | The index chosen holds the highest score, and every earlier index holds a strictly lower one. |
| `Retrieval.ArgMaxIsFirstMax` | app.py:238 | An index is the first maximum exactly when it is the one `ArgMax` returns. |
| `Retrieval.BestMatch` | app.py:238-245 | There is no outcome without scores. A hit is the first maximum, strictly above 0.25, with its own answer. A miss is the first maximum at or below 0.25. A hit happens exactly when some score exceeds 0.25. |
| `Retrieval.ThresholdIsStrict` | app.py:241 | A best score of exactly 0.25 is a miss, and the context is then "". |
| `Retrieval.EarliestTieWins` | app.py:260-262 | When scores tie for the best above the threshold, the earliest of them is used and a later one never is. |
| `Chat.BuildPrompt` | app.py:264-268 | The message list built entry by entry is the instruction, then the recent history, then the optional context note. |
| `Chat.PromptLayout` | app.py:264-268 | The prompt gives the instruction first. Next come the last min(10, n) history entries, unchanged and in order, so the newest one comes last among them. A non-empty context adds the `Company context:` note at the end. |
| `Chat.ContextNoteIffContext` | app.py:267-268 | For a history without system entries, the prompt holds a system entry after the instruction exactly when the context is non-empty. |
| `Chat.ChatSession.constructor` | app.py:186-189 | A new session holds only the greeting (app.py:186-189), and its input field is empty (app.py:250-251). |
| `Chat.ChatSession.SendMessage` | app.py:253-278 | Blank input changes nothing. No scores: only the trimmed user turn is added. A failed call: the user turn is added and the input is kept. A reply: the history grows by the user turn, then the stripped reply, and the input is cleared. The request carries the prompt for the extended history, "gpt-4o-mini" and temperature 0.4. The session invariant holds after every turn. |
| `Chat.HitAddsContextNote` | app.py:258-268 | With answers parsed from the document, a score above 0.25 is a hit whose non-empty answer ends the prompt as the context note, right after the newest history entry. |

## Left out

- Streamlit page set-up, CSS, the HTML chat bubbles, the columns and the buttons' rendering are UI. The button handler's decision is `Retrieval.BestMatch`; the success and not-found notices it shows are not modelled.
- Reading the `.docx` file with python-docx is file I/O through a foreign library. The parser takes the paragraph texts as a sequence.
- Fitting the TF-IDF vectorizer, cosine similarity and `st.cache_data` are foreign floating-point numerics and caching. The scores are an input to the retrieval decision.
- The OpenAI chat-completion call and the spinner are a network call. Its result is the `completion` parameter, a reply text or a failure.
- Loading the environment file and the API key, and stopping when it is missing, are environment I/O.
- `Retrieval.ArgMax`: scores are real numbers, so NaN and other floating-point effects on `np.argmax` are not modelled.
- `Chat.ChatSession.SendMessage`: a completion whose content is `None`, which makes `.strip()` raise, is not distinguished from other failed calls. The effect on the session is the same.
- Streamlit re-running the script, and several sessions running at once, are not modelled. A session is one object whose methods run one at a time.
