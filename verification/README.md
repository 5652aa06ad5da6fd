# Viva coach: turn protocol and session bookkeeping

The viva coach quizzes a student on uploaded study notes through a hosted
language model. The model is told to start every reply with a JSON object
carrying a `score` and a `precision_feedback`, followed by the spoken text.
This project models, in Dafny, the string handling and the session state
around that model, as written in `app.py`:

- `get_system_instruction`: a fixed head, the notes verbatim, a fixed tail
  (`Protocol.SystemInstruction`, exact text).
- `generate_response`: a loop that turns the chat history into the model's
  turn list (`Protocol.GenerateResponse`, specified by
  `Protocol.GeminiHistory`). A `"user"` message stays a user turn; any other
  role becomes a `"model"` turn. A model turn that contains a `{` and a `}`
  anywhere is replaced by the stripped text after its first `}`.
- The two reply-parsing blocks of `main` (`Protocol.ParseReply`). If the
  stripped reply starts with `{`, the raw reply is split at its first `}`
  and the head, with the `}` put back, is decoded. `score` defaults to 0 and
  `precision_feedback` to `""`.
- The chat display (`Protocol.DisplayText`).
- The session state (`Session.ExamSession`). It has four fields:
  `chatHistory`, `score`, `precisionFeedback` and `pdfText`. Three
  transitions change them: `Ingest` (PDF processing plus the opening
  question), `SubmitAnswer` (a spoken answer), and the shared
  `RecordReply`.

Python's `str.strip()` (with the exact `str.isspace()` character set),
`split("}", 1)` and the truthiness of `None`/`""` are written out in
`PyStrings`. `json.loads` is a parameter `decode: string -> Option<Object>`:
the decoded text always starts with `{` after whitespace and ends with `}`,
so a successful decode is an object. The hosted model is a parameter
`model: Request -> Option<string>`, so the contracts can state exactly
which request was sent. The transcription result is a plain
`Option<string>` input.

Some behaviour of the code is easy to misread; the model states it as written:

- Sanitising is not idempotent: `"{a} x {b} y"` becomes `"x {b} y"` and
  then `"y"` (`Protocol.SanitizeNotIdempotent` proves this for every text
  of that shape). Sanitising also does not need the `{` to come first:
  `"a } b {"` is cut to `"b {"` (`Protocol.DisplayDiffersFromHistory`).
- The opening-question path drops a reply that does not start with `{`
  (app.py:179 has no else branch); the answer path keeps it
  (app.py:213-214).
- Scores are not clamped and need not be integers. Any decoded JSON value is
  stored.
- Python truthiness decides three things:
  - An empty transcript counts as a failed transcription.
  - An empty model reply counts as a failed call.
  - Notes that extracted to `""` count as not ingested, so a later upload
    replaces them.
- An answer given before any notes were ingested is sent with the notes
  rendered as the text `None`, as the f-string does (`Protocol.FormatNotes`).

## Model

The operations themselves are functions whose own contracts state at most
a bound: `Protocol.SystemInstruction` (app.py:35-62),
`Protocol.SanitizeModelText` (app.py:93-98), `Protocol.ParseReply`
(app.py:207-211) and `Protocol.DisplayText` (app.py:145-158), and in
`PyStrings` `Strip`, `TrimLeft`, `TrimRight`, `Find` and `SplitFirst`. The
lemma rows below state what each of them computes and stand for them.

| member | source | states |
|---|---|---|
| `PyStrings.StripSpec` | app.py:98 | `strip()` removes a whitespace run at the front and one at the back and keeps the text between them unchanged; the kept text has no whitespace at either end |
| `PyStrings.TrimLeftSpec` | app.py:150 | the leading-whitespace half of `strip()` leaves a suffix of the input; everything removed is whitespace; what is left starts with a non-space |
| `PyStrings.TrimRightSpec` | app.py:98 | the trailing-whitespace half of `strip()` leaves a prefix of the input; everything removed is whitespace; a text starting with a non-space is never emptied |
| `PyStrings.FindSpec` | app.py:93 | the first index of a character: none exactly when the character is absent (`"}" in content`), otherwise an occurrence with no earlier one |
| `PyStrings.SplitFirstSpec` | app.py:96 | `split("}", 1)` gives one piece (the whole text) exactly when there is no `}`; otherwise head, `}`, tail rebuild the text and the head has no `}` |
| `PyStrings.SplitFirstUnique` | app.py:96 | any decomposition `head + "}" + tail` with no `}` in head is the one `split("}", 1)` returns |
| `PyStrings.StripKeepsLeadingBrace` | app.py:207 | a text whose first non-space character is `{` passes the `strip().startswith("{")` test |
| `PyStrings.StripBraceIsFirstNonSpace` | app.py:150 | conversely, a text passing `strip().startswith("{")` has only whitespace before a `{` |
| `Protocol.SystemInstructionSpec` | app.py:35-62 | the instruction is the fixed head, the notes, the fixed tail; the notes are recoverable from it |
| `Protocol.SystemInstructionInjective` | app.py:35-62 | different notes give different instructions |
| `Protocol.GenerateResponse` | app.py:80-107 | the loop builds the converted history followed by the new user input, and the reply is the model's answer to exactly that request |
| `Protocol.GeminiHistoryShape` | app.py:88-104 | one turn per message in order, then the input as the last user turn; user messages keep role and text; every other role becomes `model` with sanitised text |
| `Protocol.SanitizeKeepsUnbraced` | app.py:93 | a model turn lacking `{` or `}` is replayed unchanged |
| `Protocol.SanitizeCutsAtFirstClose` | app.py:93-98 | a model turn with a `{` anywhere becomes the stripped text after its first `}` |
| `Protocol.SanitizeNotIdempotent` | app.py:93-98 | when the text after the first `}` holds another `{`…`}`, a second pass cuts again and changes the text |
| `Protocol.DisplayDiffersFromHistory` | app.py:145-156 | a reply that contains a `{` somewhere and a `}`, but whose stripped text does not start with `{`, is shown whole and replayed cut at its first `}`, so the two differ |
| `Protocol.ParseReplyOutcomes` | app.py:207-209 | no prefix iff the stripped reply does not start with `{`; scored iff it does, has a `}`, and the text up to the first `}` decodes; malformed otherwise |
| `Protocol.ParseWellFormedReply` | app.py:207-212 | whitespace, `{`, a body without `}`, `}`, spoken text: when the head decodes, score and feedback are its fields (defaults 0 and `""`), and the display and the replayed history are the stripped spoken text |
| `Protocol.ScoredReplyIsWellFormed` | app.py:207-211 | conversely, every scored reply is whitespace, `{`, a body without `}`, `}`, spoken text, with the part up to that `}` decoding, so the row above covers every scored reply |
| `Protocol.ParseUndecodableReply` | app.py:207-216 | a `{`-prefixed reply whose head does not decode is malformed; the display still drops the head |
| `Protocol.ParseUnclosedReply` | app.py:207-216 | a `{`-prefixed reply with no `}` is malformed and is displayed whole |
| `Protocol.DisplayAgreesWithHistory` | app.py:145-156 | for a reply whose stripped text starts with `{`, the displayed text equals the text replayed to the model |
| `Session.OpeningRequestShape` | app.py:170-173 | the opening question is asked with the notes' instruction and no prior turns, the fixed prompt being the only turn |
| `Session.AnswerRequestShape` | app.py:200-201 | an answer is sent with the stored notes, the history as it was before the answer, and the answer as the last user turn |
| `Session.ExamSession.constructor` | app.py:134-139 | a fresh session has an empty history, score 0, no feedback and no notes |
| `Session.ExamSession.RecordReply` | app.py:207-216 | a scored reply sets score and feedback; otherwise both are unchanged; the raw reply is appended, except an unprefixed one when told not to |
| `Session.ExamSession.Ingest` | app.py:161-188 | notes are stored only when the stored ones are missing or empty; the opening question is asked only then and only with an empty history; an unprefixed reply appends nothing, others append the raw reply; score and feedback change only on a scored reply |
| `Session.ExamSession.SubmitAnswer` | app.py:193-218 | a failed or empty transcript changes nothing; otherwise the answer is appended, the model is asked with the earlier history, a non-empty reply is appended raw (two turns), and an empty or failed reply leaves only the answer; notes never change |
| `Protocol.DisplayShowsOthersVerbatim` | app.py:157-158 | a message that is not the assistant's is shown verbatim |
| `Session.ExamSession.ShowHistory` | app.py:142-158 | one shown text per stored message, in order, each its display text; in a valid session every non-assistant message is a user message shown verbatim |

## Left out

- Streamlit page setup, sidebar, `st.metric`, `st.info`, `st.success`, the
  error banners and `st.rerun`: presentation only. `st.rerun` raises
  Streamlit's control exception, which `except Exception` does not catch,
  so it does not change the modelled state.
- API key loading from the environment, `.env` and secrets, and
  `genai.configure`: configuration I/O.
- The Gemini calls in `process_audio` and `generate_response`: network
  calls. The model is the `Model` parameter. A raised exception is its
  `None`. The transcription is the `transcript` input.
- Audio capture by `mic_recorder`: no audio and a failed transcription both
  arrive as `transcript == None`. Both leave the session unchanged, as in
  the source.
- PDF text extraction with `PdfReader`: the extracted text is the `upload`
  input (`None` when no file is uploaded).
- The internals of `json.loads`: it is the `Decoder` parameter. Duplicate
  keys and number syntax are its business. JSON floats are exact reals, so
  binary floating-point rounding is not modelled, and `Json.Value` has no
  `NaN`, `Infinity` or `-Infinity`, which `json.loads` accepts by default.
- The exam pedagogy in the instruction text (depth counter, topic
  switching): these are instructions to the external model, not code. Only
  the instruction's exact text is modelled.
- Score clamping and sanitiser idempotence: the code does neither.
