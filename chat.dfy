/**
 * The chat turn of app.py (`send_message`): the session keeps the chat
 * history and the text-input value; a turn trims the input, records the user
 * turn, builds the prompt (instruction, the last ten history entries, and a
 * context note when retrieval found an answer), records the model's reply
 * and clears the input. The similarity scores and the model's completion are
 * parameters, since both come from foreign code.
 */
module Chat {
  import opened Text
  import opened Retrieval
  import QaParser

  datatype Role = User | Assistant | System

  datatype Message = Message(role: Role, content: string)

  /** The system instruction every prompt starts with. */
  const Instruction: Message := Message(System, "You are GGS Smart Chatbot, helpful and concise.")

  /** The assistant turn a new session starts with. */
  const Greeting: Message := Message(Assistant, "Hi there! \U{1F44B} How can I help you today?")

  /** How many history entries (`[-10:]`) reach the prompt. */
  const WindowSize: nat := 10

  const ModelName: string := "gpt-4o-mini"

  const Temperature: real := 0.4

  /** The system entry that carries the retrieved answer. */
  function ContextNote(context: string): Message {
    Message(System, "Company context: " + context)
  }

  /** Python's `history[-10:]`: the whole history when it is short. */
  function Recent(history: seq<Message>): seq<Message> {
    if |history| <= WindowSize then history else history[|history| - WindowSize..]
  }

  /** The `messages` list `send_message` sends to the model. */
  function Prompt(history: seq<Message>, context: string): seq<Message> {
    [Instruction] + Recent(history) + (if context != "" then [ContextNote(context)] else [])
  }

  /** The prompt assembly step by step: the instruction, a loop copying each
      recent entry, then the optional context note. */
  method BuildPrompt(history: seq<Message>, context: string) returns (messages: seq<Message>)
    ensures messages == Prompt(history, context)
  {
    messages := [Instruction];
    var recent := Recent(history);
    for i := 0 to |recent|
      invariant messages == [Instruction] + recent[..i]
    {
      messages := messages + [Message(recent[i].role, recent[i].content)];
    }
    if context != "" {
      messages := messages + [ContextNote(context)];
    }
  }

  /** Lowest of two counts. */
  function Min(a: nat, b: nat): nat {
    if a <= b then a else b
  }

  /** The shape of every prompt: the instruction first; then the last
      `min(10, |history|)` entries unchanged and in order, so the newest
      entry comes right before the optional note; and the context note last
      when the context is non-empty. */
  lemma PromptLayout(history: seq<Message>, context: string)
    ensures var p, n := Prompt(history, context), Min(WindowSize, |history|);
      && p[0] == Instruction
      && |p| == 1 + n + (if context != "" then 1 else 0)
      && (forall i :: 1 <= i <= n ==> p[i] == history[|history| - n + i - 1])
      && (history != [] ==> p[n] == history[|history| - 1])
      && (context != "" ==> p[|p| - 1] == ContextNote(context))
  {
    var p, n := Prompt(history, context), Min(WindowSize, |history|);
    var r := Recent(history);
    assert |r| == n;
    forall i | 1 <= i <= n ensures p[i] == history[|history| - n + i - 1] {
      assert p[i] == r[i - 1];
    }
  }

  /** Apart from the instruction, a prompt holds a system entry exactly when
      the context is non-empty, given a history without system entries. */
  lemma ContextNoteIffContext(history: seq<Message>, context: string)
    requires forall i :: 0 <= i < |history| ==> history[i].role != System
    ensures (exists j :: 1 <= j < |Prompt(history, context)| && Prompt(history, context)[j].role == System)
            <==> context != ""
  {
    var p, r := Prompt(history, context), Recent(history);
    if context == "" {
      forall j | 1 <= j < |p| ensures p[j].role != System {
        assert p[j] == r[j - 1];
      }
    } else {
      assert p[|p| - 1].role == System;
    }
  }

  /** The model's answer to a request: its text, or a failed call (the
      exception the client raises, which `send_message` does not catch). */
  datatype Completion = Completed(content: string) | Failed

  /** A chat-completion request. */
  datatype Request = Request(model: string, messages: seq<Message>, temperature: real)

  /** What a turn did. */
  datatype Outcome =
    | Ignored                              // blank input: nothing happens
    | RetrievalFailed                      // `np.argmax` raised on an empty score vector
    | CallFailed(request: Request)         // the completion call raised
    | Replied(request: Request, reply: string)

  /** The request for a history that ends with the new user turn. */
  function RequestFor(history: seq<Message>, scores: seq<real>, answers: seq<string>): Request
    requires |scores| == |answers|
  {
    Request(ModelName, Prompt(history, ContextOf(BestMatch(scores, answers))), Temperature)
  }

  /** The chat state of one browser session: `chat_history` and `chat_input`. */
  class ChatSession {
    var history: seq<Message>
    var input: string

    /** The history opens with the greeting, holds no system entries (so the
        session meets `ContextNoteIffContext`'s requirement and the only
        system entries of a prompt are the instruction and the context note),
        and every user entry is non-empty trimmed text. */
    predicate Valid()
      reads this
    {
      && |history| >= 1
      && history[0] == Greeting
      && (forall i :: 0 <= i < |history| ==> history[i].role != System)
      && (forall i :: 0 <= i < |history| && history[i].role == User ==>
            history[i].content != "" && Trimmed(history[i].content))
    }

    /** A new session: the greeting and an empty input field. */
    constructor ()
      ensures Valid()
      ensures history == [Greeting] && input == ""
    {
      history := [Greeting];
      input := "";
    }

    /** `send_message`. `scores` are the similarities of the trimmed input
        to each stored pair, `answers` the stored answers, `completion` what
        the model returns for the request built here. */
    method SendMessage(scores: seq<real>, answers: seq<string>, completion: Completion) returns (outcome: Outcome)
      requires Valid() && |scores| == |answers|
      modifies this
      ensures Valid()
      ensures var text := Strip(old(input));
        && (text == "" ==> outcome == Ignored && history == old(history) && input == old(input))
        && (text != "" && scores == [] ==>
              outcome == RetrievalFailed
              && history == old(history) + [Message(User, text)] && input == old(input))
        && (text != "" && scores != [] && completion.Failed? ==>
              outcome == CallFailed(RequestFor(old(history) + [Message(User, text)], scores, answers))
              && history == old(history) + [Message(User, text)] && input == old(input))
        && (text != "" && scores != [] && completion.Completed? ==>
              outcome == Replied(RequestFor(old(history) + [Message(User, text)], scores, answers), Strip(completion.content))
              && history == old(history) + [Message(User, text), Message(Assistant, Strip(completion.content))]
              && input == "")
    {
      var text := Strip(input);
      if text == "" {
        return Ignored;
      }
      history := history + [Message(User, text)];
      var found := BestMatch(scores, answers);
      if found.NoScores? {
        return RetrievalFailed;
      }
      var context := ContextOf(found);
      var messages := BuildPrompt(history, context);
      var request := Request(ModelName, messages, Temperature);
      if completion.Failed? {
        return CallFailed(request);
      }
      var reply := Strip(completion.content);
      history := history + [Message(Assistant, reply)];
      input := "";
      outcome := Replied(request, reply);
    }
  }

  /** When the best score clears the threshold for answers parsed from the
      knowledge document, the request ends with the newest history entry (the
      user's turn) followed by that answer as a context note: parsed answers
      are never empty, so a hit always adds the note. */
  lemma HitAddsContextNote(paragraphs: seq<string>, history: seq<Message>, scores: seq<real>)
    requires |scores| == |QaParser.QaPairs(paragraphs)|
    requires exists j :: 0 <= j < |scores| && scores[j] > Threshold
    ensures var answers := QaParser.Answers(QaParser.QaPairs(paragraphs));
      var m := BestMatch(scores, answers);
      var p := RequestFor(history, scores, answers).messages;
      && m.Hit? && p[|p| - 1] == ContextNote(answers[m.best]) && answers[m.best] != ""
      && (history != [] ==> p[|p| - 2] == history[|history| - 1])
  {
    var answers := QaParser.Answers(QaParser.QaPairs(paragraphs));
    QaParser.PairsWellFormed(paragraphs);
    var m := BestMatch(scores, answers);
    assert answers[m.best] != "";
    PromptLayout(history, answers[m.best]);
  }
}
