/**
 * The exam session kept in `st.session_state` across reruns of `main`
 * (app.py): the chat history, the current score, the latest precision
 * feedback and the extracted study notes, with the three transitions that
 * update them.
 */
module Session {
  import opened Wrappers
  import opened PyStrings
  import opened Json
  import opened Protocol

  /** The request that asks for the opening question: the notes' instruction and no prior turns. */
  function OpeningRequest(notes: string): Request {
    Request(SystemInstruction(notes), GeminiHistory([], InitialPrompt))
  }

  /**
   * The request sent for an answer: the instruction built from the stored notes
   * (rendered "None" when none were ingested) and the history before the answer.
   */
  function AnswerRequest(pdfText: Option<string>, history: seq<Message>, answer: string): Request {
    Request(SystemInstruction(FormatNotes(pdfText)), GeminiHistory(history, answer))
  }

  /** The opening question is asked with the notes' instruction and the fixed prompt as the only turn. */
  lemma OpeningRequestShape(notes: string)
    ensures NotesOf(OpeningRequest(notes).systemInstruction) == notes
    ensures OpeningRequest(notes).contents == [Content(UserRole, InitialPrompt)]
  {
    SystemInstructionSpec(notes);
    GeminiHistoryShape([], InitialPrompt);
  }

  /**
   * An answer is sent with the stored notes, one turn per message stored before
   * the answer, and the answer itself last, as a user turn.
   */
  lemma AnswerRequestShape(pdfText: Option<string>, history: seq<Message>, answer: string)
    ensures NotesOf(AnswerRequest(pdfText, history, answer).systemInstruction) == FormatNotes(pdfText)
    ensures |AnswerRequest(pdfText, history, answer).contents| == |history| + 1
    ensures AnswerRequest(pdfText, history, answer).contents[|history|] == Content(UserRole, answer)
    ensures forall i :: 0 <= i < |history| ==>
              AnswerRequest(pdfText, history, answer).contents[i] == ToGemini(history[i])
  {
    SystemInstructionSpec(FormatNotes(pdfText));
    GeminiHistoryShape(history, answer);
  }

  /** The score after a reply: the decoded one when the reply is scored, otherwise unchanged. */
  function ScoreAfter(score: Value, reply: Option<string>, decode: Decoder): Value {
    if Truthy(reply) && ParseReply(reply.value, decode).Scored? then
      ParseReply(reply.value, decode).score
    else
      score
  }

  /** The feedback after a reply: the decoded one when the reply is scored, otherwise unchanged. */
  function FeedbackAfter(feedback: Option<Value>, reply: Option<string>, decode: Decoder): Option<Value> {
    if Truthy(reply) && ParseReply(reply.value, decode).Scored? then
      Some(ParseReply(reply.value, decode).feedback)
    else
      feedback
  }

  class ExamSession {
    var chatHistory: seq<Message>
    var score: Value
    /** `None` until the first scored reply: the key is absent from the session state. */
    var precisionFeedback: Option<Value>
    var pdfText: Option<string>

    /** Only user and assistant messages are ever stored. */
    ghost predicate Valid()
      reads this
    {
      forall i :: 0 <= i < |chatHistory| ==> chatHistory[i].role == UserRole || chatHistory[i].role == AssistantRole
    }

    /** The state of a fresh session: empty history, score 0, no feedback, no notes. */
    constructor ()
      ensures Valid()
      ensures chatHistory == [] && score == JInt(0) && precisionFeedback == None && pdfText == None
    {
      chatHistory := [];
      score := JInt(0);
      precisionFeedback := None;
      pdfText := None;
    }

    /**
     * Applies a non-empty reply as both parse blocks do: a scored reply sets
     * score and feedback, anything else leaves them; the raw reply is
     * appended, except that a reply without a `{` prefix is appended only
     * when `appendUnprefixed` holds.
     */
    method RecordReply(reply: string, decode: Decoder, appendUnprefixed: bool)
      requires Valid()
      modifies this
      ensures Valid()
      ensures pdfText == old(pdfText)
      ensures ParseReply(reply, decode).Scored? ==>
                score == ParseReply(reply, decode).score && precisionFeedback == Some(ParseReply(reply, decode).feedback)
      ensures !ParseReply(reply, decode).Scored? ==> score == old(score) && precisionFeedback == old(precisionFeedback)
      ensures ParseReply(reply, decode).NoPrefix? && !appendUnprefixed ==> chatHistory == old(chatHistory)
      ensures !ParseReply(reply, decode).NoPrefix? || appendUnprefixed ==>
                chatHistory == old(chatHistory) + [Message(AssistantRole, reply)]
    {
      var parsed := ParseReply(reply, decode);
      if parsed.Scored? {
        score := parsed.score;
        precisionFeedback := Some(parsed.feedback);
      }
      if !parsed.NoPrefix? || appendUnprefixed {
        chatHistory := chatHistory + [Message(AssistantRole, reply)];
      }
    }

    /**
     * PDF processing and the opening question. Notes are stored only when the
     * stored ones are missing or empty. The opening question is asked only then
     * and only when the history is empty, with no prior turns; a reply without
     * a `{` prefix is dropped, a malformed one is kept raw, a scored one sets
     * score and feedback and is kept raw.
     */
    method Ingest(upload: Option<string>, model: Model, decode: Decoder)
      requires Valid()
      modifies this
      ensures Valid()
      ensures upload.Some? && !Truthy(old(pdfText)) ==> pdfText == Some(upload.value)
      ensures !(upload.Some? && !Truthy(old(pdfText))) ==> unchanged(this)
      ensures upload.Some? && !Truthy(old(pdfText)) && old(chatHistory) != [] ==>
                chatHistory == old(chatHistory) && score == old(score) && precisionFeedback == old(precisionFeedback)
      ensures upload.Some? && !Truthy(old(pdfText)) && old(chatHistory) == [] ==>
                var reply := model(OpeningRequest(upload.value));
                && score == ScoreAfter(old(score), reply, decode)
                && precisionFeedback == FeedbackAfter(old(precisionFeedback), reply, decode)
                && chatHistory == (if Truthy(reply) && !ParseReply(reply.value, decode).NoPrefix?
                                   then [Message(AssistantRole, reply.value)] else [])
    {
      if upload.Some? && !Truthy(pdfText) {
        pdfText := Some(upload.value);
        if chatHistory == [] {
          var instruction := SystemInstruction(upload.value);
          var reply := GenerateResponse(InitialPrompt, [], instruction, model);
          if Truthy(reply) {
            RecordReply(reply.value, decode, false);
          }
        }
      }
    }

    /**
     * A spoken answer. A failed or empty transcription changes nothing.
     * Otherwise the answer is appended, the model is asked with the history
     * as it was before the answer, and a non-empty reply is appended raw
     * whatever its form, updating score and feedback only when it is scored.
     */
    method SubmitAnswer(transcript: Option<string>, model: Model, decode: Decoder)
      requires Valid()
      modifies this
      ensures Valid()
      ensures !Truthy(transcript) ==> unchanged(this)
      ensures pdfText == old(pdfText)
      ensures Truthy(transcript) ==>
                var reply := model(AnswerRequest(old(pdfText), old(chatHistory), transcript.value));
                && score == ScoreAfter(old(score), reply, decode)
                && precisionFeedback == FeedbackAfter(old(precisionFeedback), reply, decode)
                && chatHistory == old(chatHistory) + [Message(UserRole, transcript.value)]
                                  + (if Truthy(reply) then [Message(AssistantRole, reply.value)] else [])
    {
      if Truthy(transcript) {
        chatHistory := chatHistory + [Message(UserRole, transcript.value)];
        var instruction := SystemInstruction(FormatNotes(pdfText));
        var reply := GenerateResponse(transcript.value, chatHistory[..|chatHistory| - 1], instruction, model);
        if Truthy(reply) {
          RecordReply(reply.value, decode, true);
        }
      }
    }

    /**
     * The chat display: one shown text per stored message, in order. User
     * messages are shown verbatim; an assistant message may lose its JSON head.
     */
    method ShowHistory() returns (shown: seq<string>)
      requires Valid()
      ensures |shown| == |chatHistory|
      ensures forall i :: 0 <= i < |chatHistory| ==> shown[i] == DisplayText(chatHistory[i])
      ensures forall i :: 0 <= i < |chatHistory| && chatHistory[i].role != AssistantRole ==>
                chatHistory[i].role == UserRole && shown[i] == chatHistory[i].content
    {
      shown := [];
      for i := 0 to |chatHistory|
        invariant |shown| == i
        invariant forall k :: 0 <= k < i ==> shown[k] == DisplayText(chatHistory[k])
      {
        shown := shown + [DisplayText(chatHistory[i])];
      }
    }
  }
}
