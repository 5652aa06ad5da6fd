/**
 * The pure string protocol of the viva coach (app.py): the examiner's system
 * instruction, the conversion of the chat history into the hosted model's
 * turn list, the split of a reply into its leading JSON score object and
 * spoken text, and the text shown for a stored message.
 */
module Protocol {
  import opened Wrappers
  import opened PyStrings
  import opened Json

  const UserRole: string := "user"
  const AssistantRole: string := "assistant"
  const ModelRole: string := "model"

  /** The input sent to ask for the opening question. */
  const InitialPrompt: string := "Start the viva. Ask me a question from the notes."

  /** One entry of the session's chat history: `{"role": ..., "content": ...}`. */
  datatype Message = Message(role: string, content: string)

  /** One turn handed to the model: `{"role": ..., "parts": [text]}`. */
  datatype Content = Content(role: string, text: string)

  /** A call to the hosted model: its system instruction and its turn list. */
  datatype Request = Request(systemInstruction: string, contents: seq<Content>)

  /**
   * The hosted model behind `generate_response`: the reply text, or `None`
   * when the call raised (network, key, quota).
   */
  type Model = Request -> Option<string>

  // ---------------------------------------------------------------------
  // System instruction
  // ---------------------------------------------------------------------

  /** The fixed text before the study notes. */
  const InstructionHead: string :=
    "\n"
    + "    You are a strict but fair \"Viva Examiner\" for a technical interview. \n"
    + "    Your goal is to quiz the user based ONLY on the provided study notes.\n"
    + "\n"
    + "    ### STUDY NOTES:\n"
    + "    "

  /** The fixed text after the study notes: the drill-down rules and the reply format. */
  const InstructionTail: string :=
    "\n"
    + "\n"
    + "    ### EXAM RULES (The \"Drill-Down\" Protocol):\n"
    + "    1.  **Step 1 (The Hook):** Start by asking a generic, high-level question from the notes.\n"
    + "    2.  **Step 2 (The Drill-Down):**\n"
    + "        *   **Good Answer:** If the answer is correct, DO NOT move to a new topic yet. Ask a \"Level 2\" follow-up question probing a specific technical nuance or edge case of that same concept.\n"
    + "        *   **Vague Answer:** If the user uses layman terms (e.g., \"the function calls itself\"), stop and correct them: \"The technical term is Recursion. Try defining it again using that word.\"\n"
    + "        *   **Wrong Answer:** Briefly explain the correct concept and ask a simpler remedial question.\n"
    + "    3.  **Step 3 (Depth Limit):** You must maintain a \"Depth Counter\" for the current topic. \n"
    + "        *   After 3 exchanges on the same topic, you MUST switch to a completely new topic from the notes.\n"
    + "        *   Explicitly state \"[Switching Topic]\" in your internal reasoning, but do not say it to the user.\n"
    + "\n"
    + "    ### RESPONSE FORMAT:\n"
    + "    You must ALWAYS start your response with a JSON object containing the score (0-100) for the user's last answer and brief feedback on their precision. Follow it immediately with your spoken response.\n"
    + "    \n"
    + "    Format:\n"
    + "    { \"score\": 85, \"precision_feedback\": \"Good use of technical terms, but missed the edge case.\" }\n"
    + "    <Your spoken response to the user here>\n"
    + "    "

  /** The study notes embedded in an instruction: the text between the fixed head and tail. */
  function NotesOf(instruction: string): string
    requires |instruction| >= |InstructionHead| + |InstructionTail|
  {
    instruction[|InstructionHead|..|instruction| - |InstructionTail|]
  }

  /** `get_system_instruction(pdf_text)`: the fixed head, the notes verbatim, the fixed tail. */
  function SystemInstruction(notes: string): string {
    InstructionHead + notes + InstructionTail
  }

  /** The instruction starts with the fixed head and ends with the fixed tail, and the notes can be read back from it. */
  lemma SystemInstructionSpec(notes: string)
    ensures |SystemInstruction(notes)| == |InstructionHead| + |notes| + |InstructionTail|
    ensures SystemInstruction(notes)[..|InstructionHead|] == InstructionHead
    ensures SystemInstruction(notes)[|SystemInstruction(notes)| - |InstructionTail|..] == InstructionTail
    ensures NotesOf(SystemInstruction(notes)) == notes
  {
    var r := SystemInstruction(notes);
    assert r[..|InstructionHead|] == InstructionHead;
    assert r[|r| - |InstructionTail|..] == InstructionTail;
    assert r[|InstructionHead|..|r| - |InstructionTail|] == notes;
  }

  /** Different notes give different instructions. */
  lemma SystemInstructionInjective(a: string, b: string)
    requires SystemInstruction(a) == SystemInstruction(b)
    ensures a == b
  {
    SystemInstructionSpec(a);
    SystemInstructionSpec(b);
  }

  /** How the f-string renders `st.session_state.pdf_text`: `None` becomes the text "None". */
  function FormatNotes(pdfText: Option<string>): string {
    match pdfText
    case None => "None"
    case Some(text) => text
  }

  // ---------------------------------------------------------------------
  // History conversion (generate_response)
  // ---------------------------------------------------------------------

  /**
   * The text kept for a past model turn: when it contains both `{` and `}`
   * anywhere, everything up to its first `}` is dropped and the rest stripped.
   */
  function SanitizeModelText(content: string): string {
    if '{' in content && '}' in content then
      var parts := SplitFirst(content, '}');
      if |parts| > 1 then Strip(parts[1]) else content
    else
      content
  }

  /** One chat-history message as the model's turn: "user" stays, any other role is "model". */
  function ToGemini(m: Message): Content {
    var role := if m.role == UserRole then UserRole else ModelRole;
    var content := if role == ModelRole then SanitizeModelText(m.content) else m.content;
    Content(role, content)
  }

  /** The chat history converted message by message, in order. */
  function ConvertedHistory(history: seq<Message>): seq<Content> {
    seq(|history|, i requires 0 <= i < |history| => ToGemini(history[i]))
  }

  /** The turn list `generate_response` sends: the converted history, then the new input. */
  function GeminiHistory(history: seq<Message>, userInput: string): seq<Content> {
    ConvertedHistory(history) + [Content(UserRole, userInput)]
  }

  /**
   * `generate_response`: builds the turn list with a loop over the history and
   * hands it to the model together with the system instruction.
   */
  method GenerateResponse(userInput: string, chatHistory: seq<Message>, systemInstruction: string, model: Model)
    returns (reply: Option<string>)
    ensures reply == model(Request(systemInstruction, GeminiHistory(chatHistory, userInput)))
  {
    var geminiHistory: seq<Content> := [];
    var i := 0;
    while i < |chatHistory|
      invariant 0 <= i <= |chatHistory|
      invariant |geminiHistory| == i
      invariant forall k :: 0 <= k < i ==> geminiHistory[k] == ToGemini(chatHistory[k])
    {
      var msg := chatHistory[i];
      var role := if msg.role == UserRole then UserRole else ModelRole;
      var content := msg.content;
      if role == ModelRole && '{' in content && '}' in content {
        var parts := SplitFirst(content, '}');
        if |parts| > 1 {
          content := Strip(parts[1]);
        }
      }
      assert Content(role, content) == ToGemini(msg);
      geminiHistory := geminiHistory + [Content(role, content)];
      i := i + 1;
    }
    assert geminiHistory == ConvertedHistory(chatHistory);
    geminiHistory := geminiHistory + [Content(UserRole, userInput)];
    reply := model(Request(systemInstruction, geminiHistory));
  }

  /**
   * The converted history has one turn per message, in the same order, followed
   * by the new input as a user turn. User messages keep their text; every other
   * message becomes a model turn carrying its sanitised text.
   */
  lemma GeminiHistoryShape(history: seq<Message>, userInput: string)
    ensures |GeminiHistory(history, userInput)| == |history| + 1
    ensures GeminiHistory(history, userInput)[|history|] == Content(UserRole, userInput)
    ensures forall i :: 0 <= i < |history| && history[i].role == UserRole ==>
              GeminiHistory(history, userInput)[i] == Content(UserRole, history[i].content)
    ensures forall i :: 0 <= i < |history| && history[i].role != UserRole ==>
              GeminiHistory(history, userInput)[i] == Content(ModelRole, SanitizeModelText(history[i].content))
  {
  }

  /** A model turn lacking a `{` or a `}` is replayed unchanged. */
  lemma SanitizeKeepsUnbraced(content: string)
    requires '{' !in content || '}' !in content
    ensures SanitizeModelText(content) == content
    ensures ToGemini(Message(AssistantRole, content)) == Content(ModelRole, content)
  {
  }

  /**
   * A model turn with a `{` anywhere and a `}` is replayed as the stripped text
   * after its first `}`, wherever the `{` stands.
   */
  lemma SanitizeCutsAtFirstClose(head: string, tail: string)
    requires '}' !in head
    requires '{' in head + "}" + tail
    ensures SanitizeModelText(head + "}" + tail) == Strip(tail)
  {
    SplitFirstUnique(head + "}" + tail, '}', head, tail);
  }

  /**
   * Sanitising is not idempotent: when the text after the first `}` has
   * another `{` and `}`, a second pass cuts again at the next `}` and loses text.
   */
  lemma SanitizeNotIdempotent(head: string, ws: string, middle: string, tail: string)
    requires '}' !in head && '{' in head
    requires AllSpace(ws)
    requires '}' !in middle && '{' in middle && middle != [] && !IsSpace(middle[0])
    ensures var once := SanitizeModelText(head + "}" + ws + middle + "}" + tail);
      && once == middle + "}" + TrimRight(tail)
      && SanitizeModelText(once) == Strip(TrimRight(tail))
      && SanitizeModelText(once) != once
  {
    SanitizeFirstPass(head, ws, middle, tail);
    var once := middle + "}" + TrimRight(tail);
    SanitizeCutsAtFirstClose(middle, TrimRight(tail));
    StripSpec(TrimRight(tail));
  }

  lemma SanitizeFirstPass(head: string, ws: string, middle: string, tail: string)
    requires '}' !in head && '{' in head
    requires AllSpace(ws)
    requires middle != [] && !IsSpace(middle[0])
    ensures SanitizeModelText(head + "}" + ws + middle + "}" + tail) == middle + "}" + TrimRight(tail)
  {
    var mt := middle + "}" + tail;
    var rest := ws + mt;
    assert head + "}" + ws + middle + "}" + tail == head + "}" + rest;
    SanitizeCutsAtFirstClose(head, rest);
    StripPastSpace(ws, middle, tail);
  }

  lemma StripPastSpace(ws: string, middle: string, tail: string)
    requires AllSpace(ws)
    requires middle != [] && !IsSpace(middle[0])
    ensures Strip(ws + (middle + "}" + tail)) == middle + "}" + TrimRight(tail)
  {
    var mt := middle + "}" + tail;
    TrimLeftSkipsSpace(ws, mt);
    assert TrimLeft(mt) == mt;
    TrimRightAfterNonSpace(middle + "}", tail);
  }

  /**
   * The cut does not need the `{` to come first: a reply whose stripped text
   * does not start with `{` is displayed whole, yet replayed cut at its first `}`.
   */
  lemma DisplayDiffersFromHistory(head: string, tail: string)
    requires '}' !in head && '{' in head + "}" + tail
    requires !StartsWithBrace(Strip(head + "}" + tail))
    ensures DisplayText(Message(AssistantRole, head + "}" + tail)) == head + "}" + tail
    ensures ToGemini(Message(AssistantRole, head + "}" + tail)).text == Strip(tail)
    ensures DisplayText(Message(AssistantRole, head + "}" + tail)) != ToGemini(Message(AssistantRole, head + "}" + tail)).text
  {
    SanitizeCutsAtFirstClose(head, tail);
    StripSpec(tail);
  }

  // ---------------------------------------------------------------------
  // Reply parsing (the two parse blocks of main)
  // ---------------------------------------------------------------------

  /**
   * What a parse block makes of a reply: it does not start with `{` (after
   * stripping); it does but has no `}` or its head does not decode; or the
   * head decoded and yields the score and the precision feedback.
   */
  datatype ReplyParse =
    | NoPrefix
    | Malformed
    | Scored(score: Value, feedback: Value)

  /**
   * The parse of a raw reply: when its stripped form starts with `{`, the raw
   * reply is split at its first `}` and the part before it, with the `}` put
   * back, is decoded; `score` defaults to 0 and `precision_feedback` to "".
   */
  function ParseReply(raw: string, decode: Decoder): ReplyParse {
    if !StartsWithBrace(Strip(raw)) then NoPrefix
    else
      var parts := SplitFirst(raw, '}');
      if |parts| != 2 then Malformed
      else
        match decode(parts[0] + "}")
        case None => Malformed
        case Some(obj) => Scored(Get(obj, "score", JInt(0)), Get(obj, "precision_feedback", JString("")))
  }

  /**
   * The three outcomes in terms of the reply itself: no prefix exactly when the
   * stripped reply does not start with `{`; scored exactly when it does, the
   * reply has a `}` (found at the index `Find` returns), and the text up to and
   * including that `}` decodes.
   */
  lemma ParseReplyOutcomes(raw: string, decode: Decoder)
    ensures ParseReply(raw, decode).NoPrefix? <==> !StartsWithBrace(Strip(raw))
    ensures ParseReply(raw, decode).Scored? <==>
              StartsWithBrace(Strip(raw)) && Find(raw, '}').Some? && decode(raw[..Find(raw, '}').value + 1]).Some?
    ensures ParseReply(raw, decode).Malformed? <==>
              StartsWithBrace(Strip(raw)) && (Find(raw, '}').None? || decode(raw[..Find(raw, '}').value + 1]).None?)
  {
    FindSpec(raw, '}');
    SplitFirstSpec(raw, '}');
    if StartsWithBrace(Strip(raw)) && '}' in raw {
      SplitFirstHead(raw, '}');
      ParseDecodesHead(raw, decode);
    }
  }

  lemma ParseDecodesHead(raw: string, decode: Decoder)
    requires StartsWithBrace(Strip(raw)) && '}' in raw
    ensures ParseReply(raw, decode).Scored? <==> decode(SplitFirst(raw, '}')[0] + "}").Some?
  {
    SplitFirstSpec(raw, '}');
  }

  /**
   * A well-formed reply (whitespace, `{`, a body without `}`, `}`, spoken text)
   * whose object decodes is scored with the object's fields, and both the
   * display and the replayed history show the stripped spoken text.
   */
  lemma ParseWellFormedReply(ws: string, body: string, tail: string, obj: Object, decode: Decoder)
    requires AllSpace(ws) && '}' !in body
    requires decode(ws + "{" + body + "}") == Some(obj)
    ensures var raw := ws + "{" + body + "}" + tail;
      && ParseReply(raw, decode) == Scored(Get(obj, "score", JInt(0)), Get(obj, "precision_feedback", JString("")))
      && DisplayText(Message(AssistantRole, raw)) == Strip(tail)
      && SanitizeModelText(raw) == Strip(tail)
  {
    var raw := ws + "{" + body + "}" + tail;
    var head := ws + "{" + body;
    assert '}' !in ws by {
      forall k | 0 <= k < |ws| ensures ws[k] != '}' { assert IsSpace(ws[k]); }
    }
    assert raw == head + "}" + tail;
    assert raw == ws + ['{'] + (body + "}" + tail);
    StripKeepsLeadingBrace(ws, body + "}" + tail);
    SplitFirstUnique(raw, '}', head, tail);
    assert '{' in raw by { assert raw[|ws|] == '{'; }
  }

  /**
   * Conversely, every scored reply has that shape: whitespace, `{`, a body
   * without `}`, the first `}`, the spoken text, with the part up to the `}`
   * decoding, so `ParseWellFormedReply` describes every scored reply.
   */
  lemma ScoredReplyIsWellFormed(raw: string, decode: Decoder)
    requires ParseReply(raw, decode).Scored?
    ensures exists ws, body, tail ::
              && raw == ws + "{" + body + "}" + tail
              && AllSpace(ws) && '}' !in body
              && decode(ws + "{" + body + "}").Some?
  {
    ParseReplyOutcomes(raw, decode);
    StripBraceIsFirstNonSpace(raw);
    FindSpec(raw, '}');
    var a := |raw| - |TrimLeft(raw)|;
    var i := Find(raw, '}').value;
    BraceHeadShape(raw, a, i);
    var ws, body, tail := raw[..a], raw[a + 1..i], raw[i + 1..];
    assert raw == ws + "{" + body + "}" + tail;
    assert decode(ws + "{" + body + "}").Some?;
  }

  /** Cutting a text at its first non-space `{` and at its first `}`. */
  lemma BraceHeadShape(raw: string, a: nat, i: nat)
    requires a < |raw| && AllSpace(raw[..a]) && raw[a] == '{'
    requires i < |raw| && raw[i] == '}' && '}' !in raw[..i]
    ensures a < i && '}' !in raw[a + 1..i]
    ensures raw[..i + 1] == raw[..a] + "{" + raw[a + 1..i] + "}"
    ensures raw == raw[..a] + "{" + raw[a + 1..i] + "}" + raw[i + 1..]
  {
    assert a < i;
    assert forall k :: a + 1 <= k < i ==> raw[k] == raw[..i][k];
  }

  /**
   * A reply that starts with `{` but whose head does not decode is malformed:
   * its score is not used, while the display still drops the head.
   */
  lemma ParseUndecodableReply(ws: string, body: string, tail: string, decode: Decoder)
    requires AllSpace(ws) && '}' !in body
    requires decode(ws + "{" + body + "}").None?
    ensures ParseReply(ws + "{" + body + "}" + tail, decode) == Malformed
    ensures DisplayText(Message(AssistantRole, ws + "{" + body + "}" + tail)) == Strip(tail)
  {
    var raw := ws + "{" + body + "}" + tail;
    var head := ws + "{" + body;
    assert '}' !in ws by {
      forall k | 0 <= k < |ws| ensures ws[k] != '}' { assert IsSpace(ws[k]); }
    }
    assert raw == head + "}" + tail;
    assert raw == ws + ['{'] + (body + "}" + tail);
    StripKeepsLeadingBrace(ws, body + "}" + tail);
    SplitFirstUnique(raw, '}', head, tail);
  }

  /** A reply that starts with `{` and never closes it is malformed and displayed whole. */
  lemma ParseUnclosedReply(raw: string, decode: Decoder)
    requires StartsWithBrace(Strip(raw)) && '}' !in raw
    ensures ParseReply(raw, decode) == Malformed
    ensures DisplayText(Message(AssistantRole, raw)) == raw
  {
    SplitFirstSpec(raw, '}');
  }

  // ---------------------------------------------------------------------
  // Display
  // ---------------------------------------------------------------------

  /**
   * The text written for a stored message: an assistant message whose stripped
   * text starts with `{` shows the stripped text after its first `}` (the whole
   * content when there is no `}`); everything else is shown verbatim.
   */
  function DisplayText(m: Message): string {
    if m.role == AssistantRole && StartsWithBrace(Strip(m.content)) then
      var parts := SplitFirst(m.content, '}');
      if |parts| == 2 then Strip(parts[1]) else m.content
    else
      m.content
  }

  /** A message that is not the assistant's is shown verbatim. */
  lemma DisplayShowsOthersVerbatim(m: Message)
    requires m.role != AssistantRole
    ensures DisplayText(m) == m.content
  {
  }

  /**
   * For a reply whose stripped text starts with `{`, what the user sees and
   * what the model is later shown of it coincide.
   */
  lemma DisplayAgreesWithHistory(content: string)
    requires StartsWithBrace(Strip(content))
    ensures DisplayText(Message(AssistantRole, content)) == ToGemini(Message(AssistantRole, content)).text
  {
    StripBraceIsFirstNonSpace(content);
    SplitFirstSpec(content, '}');
  }
}
