// The pure part of `generate_response`: the context block, the rendered room
// history, the fixed request template and the fallback when the model gives
// no usable answer.
module Prompt {
  import opened Strings
  import Chunker
  import Ranker

  datatype Option<T> = None | Some(value: T)

  /** One stored chat message: its role ("user" or "model") and its text. */
  datatype Message = Message(role: string, content: string)

  const UserRole: string := "user"
  const ModelRole: string := "model"
  const UserLabel: string := "ผู้ใช้"
  const ModelLabel: string := "C-Genie"

  /** Separator between retrieved chunks in the context block. */
  const ContextSeparator: string := "\n\n"

  /** The fixed reply used when the model returns nothing usable. */
  const FallbackReply: string := "ข้อมูลนี้ยังไม่มีในเอกสารค่ะ"

  // ---------------------------------------------------------------------
  // History
  // ---------------------------------------------------------------------

  function Label(role: string): string
  {
    if role == UserRole then UserLabel else ModelLabel
  }

  /** The line a message contributes to the history: `"{label}: {content}\n"`. */
  function Line(m: Message): string
  {
    Label(m.role) + ": " + m.content + "\n"
  }

  /** One line per message, in the order the messages were appended. */
  function Lines(msgs: seq<Message>): (r: seq<string>)
    ensures |r| == |msgs|
    ensures forall i :: 0 <= i < |msgs| ==> r[i] == Line(msgs[i])
  {
    seq(|msgs|, i requires 0 <= i < |msgs| => Line(msgs[i]))
  }

  /** The history text: the lines of the messages, one after the other. */
  function HistoryText(msgs: seq<Message>): string
  {
    Concat(Lines(msgs))
  }

  /** The `history_text +=` loop of `generate_response`. */
  method RenderHistory(msgs: seq<Message>) returns (history: string)
    ensures history == HistoryText(msgs)
  {
    history := "";
    for i := 0 to |msgs|
      invariant history == HistoryText(msgs[..i])
    {
      assert msgs[..i + 1] == msgs[..i] + [msgs[i]];
      HistoryAppend(msgs[..i], [msgs[i]]);
      assert Lines([msgs[i]]) == [Line(msgs[i])];
      assert Concat([Line(msgs[i])]) == Line(msgs[i]);
      history := history + Line(msgs[i]);
    }
    assert msgs[..|msgs|] == msgs;
  }

  /** Each message gets one line, labelled "ผู้ใช้" exactly when its role is
      "user" and "C-Genie" otherwise, holding its content and ending in a
      newline. */
  lemma LineShape(m: Message)
    ensures var l := Line(m);
      && (l[..|UserLabel| + 2] == UserLabel + ": " <==> m.role == UserRole)
      && (m.role != UserRole ==> l[..|ModelLabel| + 2] == ModelLabel + ": ")
      && l[|Label(m.role)| + 2..|l| - 1] == m.content
      && l[|l| - 1] == '\n'
  {
    var l := Line(m);
    if m.role != UserRole {
      assert l[..|UserLabel| + 2][0] == ModelLabel[0];
    }
    assert l[..|Label(m.role)| + 2] == Label(m.role) + ": ";
  }

  /** Rendering goes message by message: the text for a room is the text for
      any first part of it followed by the text for the rest. In particular a
      turn's two appended messages add exactly their two lines at the end, and
      an empty room renders to nothing. */
  lemma HistoryAppend(a: seq<Message>, b: seq<Message>)
    ensures HistoryText(a + b) == HistoryText(a) + HistoryText(b)
    ensures HistoryText([]) == ""
  {
    assert Lines(a + b) == Lines(a) + Lines(b);
    ConcatAppend(Lines(a), Lines(b));
  }

  // ---------------------------------------------------------------------
  // The request template
  // ---------------------------------------------------------------------

  const ContextHeader: string := "\nข้อมูลจากเอกสาร:\n"
  const HistoryHeader: string := "\n\nประวัติการสนทนา:\n"
  const QuestionHeader: string := "\n\nคำถามล่าสุด:\n"
  const AddonHeader: string := "\n\nคำสั่งเพิ่มเติม:\n"

  /** The f-string `generate_response` sends to the model. */
  function Template(context: string, history: string, question: string, addon: string): string
  {
    ContextHeader + context + HistoryHeader + history + QuestionHeader + question
    + AddonHeader + addon + "\n"
  }

  /** The template puts the context, the history, the question and the add-on
      in that order, each straight after its own heading, and ends in a
      newline. */
  lemma TemplateLayout(context: string, history: string, question: string, addon: string)
    ensures var p := Template(context, history, question, addon);
      var c := |ContextHeader|;
      var h := c + |context| + |HistoryHeader|;
      var q := h + |history| + |QuestionHeader|;
      var a := q + |question| + |AddonHeader|;
      && |p| == a + |addon| + 1
      && p[..c] == ContextHeader && p[c..c + |context|] == context
      && p[h - |HistoryHeader|..h] == HistoryHeader && p[h..h + |history|] == history
      && p[q - |QuestionHeader|..q] == QuestionHeader && p[q..q + |question|] == question
      && p[a - |AddonHeader|..a] == AddonHeader && p[a..a + |addon|] == addon
      && p[|p| - 1] == '\n'
  {
  }

  /** Knowing where the fields end, the request determines them: two requests
      that agree and whose context, history and question have the same lengths
      were built from the same four fields. */
  lemma TemplateInjective(c1: string, h1: string, q1: string, a1: string,
                          c2: string, h2: string, q2: string, a2: string)
    requires Template(c1, h1, q1, a1) == Template(c2, h2, q2, a2)
    requires |c1| == |c2| && |h1| == |h2| && |q1| == |q2|
    ensures c1 == c2 && h1 == h2 && q1 == q2 && a1 == a2
  {
    TemplateLayout(c1, h1, q1, a1);
    TemplateLayout(c2, h2, q2, a2);
  }

  /** With an empty room the history heading is followed straight by the
      question heading: no history line is rendered. */
  lemma EmptyHistorySection(context: string, question: string, addon: string)
    ensures var p := Template(context, HistoryText([]), question, addon);
      var h := |ContextHeader| + |context| + |HistoryHeader|;
      p[h - |HistoryHeader|..h + |QuestionHeader|] == HistoryHeader + QuestionHeader
  {
    TemplateLayout(context, HistoryText([]), question, addon);
  }

  /** The request built for `prompt` from the ranked chunks and the room's messages. */
  function Query(prompt: string, related: seq<string>, history: seq<Message>, addon: string): string
  {
    Template(Join(ContextSeparator, related), HistoryText(history), prompt, addon)
  }

  // ---------------------------------------------------------------------
  // The model's answer
  // ---------------------------------------------------------------------

  /** The parts of a response the fallback test looks at: the candidates,
      each with the text of its content's parts. */
  datatype Candidate = Candidate(parts: seq<string>)
  datatype Response = Response(candidates: seq<Candidate>)

  /** What the call to the model gives back: a response (possibly `None`), or
      an exception that the application does not catch. */
  datatype Call = Raised | Returned(response: Option<Response>)

  /** There is a response, it has a candidate, and that candidate has parts. */
  predicate Usable(response: Option<Response>)
  {
    response.Some? && response.value.candidates != []
    && response.value.candidates[0].parts != []
  }

  /** `response.text`: the text of the first candidate's parts, joined. */
  function Text(response: Response): string
    requires response.candidates != []
  {
    Concat(response.candidates[0].parts)
  }

  /** The last line of `generate_response`. */
  function Reply(response: Option<Response>): string
  {
    if Usable(response) then Strip(Text(response.value)) else FallbackReply
  }

  /** Without a usable candidate the reply is exactly the fallback text; with
      one it is the answer's text without its surrounding whitespace. Either
      way the reply neither starts nor ends with whitespace. */
  lemma ReplyFacts(response: Option<Response>)
    ensures !Usable(response) ==> Reply(response) == FallbackReply
    ensures Usable(response) ==>
      var t := Text(response.value);
      exists i :: (0 <= i <= |t| - |Reply(response)|
        && Reply(response) == t[i..i + |Reply(response)|]
        && IsBlank(t[..i]) && IsBlank(t[i + |Reply(response)|..]))
    ensures var r := Reply(response); r == [] || (!IsSpace(r[0]) && !IsSpace(r[|r| - 1]))
  {
    if Usable(response) {
      StripShape(Text(response.value));
    } else {
      var f := FallbackReply;
      assert f[0] == '\U{0E02}' && f[|f| - 1] == '\U{0E30}';
      ThaiIsNotSpace(f[0]);
      ThaiIsNotSpace(f[|f| - 1]);
    }
  }

  /** The reply to `prompt`: the document is cut with the default window and
      overlap, the eight best chunks form the context, and the model's answer
      to the request goes through the fallback. `None` when the call raises:
      `generate_response` then returns nothing and the exception propagates. */
  function Answer(prompt: string, fileContent: string, addon: string,
                  history: seq<Message>, ratio: Ranker.Similarity,
                  answer: string -> Call): Option<string>
  {
    var chunks := Chunker.Chunks(fileContent, Chunker.DefaultSize, Chunker.DefaultOverlap);
    var related := Ranker.SearchResult(ratio, prompt, chunks, Ranker.DefaultTopK);
    match answer(Query(prompt, related, history, addon))
    case Raised => None
    case Returned(response) => Some(Reply(response))
  }

  /** `generate_response(prompt, file_content, user_prompt_addon, chat_key)`,
      with the room's messages passed in and the model call as `answer`;
      `None` stands for the exception the call may raise. */
  method GenerateResponse(prompt: string, fileContent: string, addon: string,
                          history: seq<Message>, ratio: Ranker.Similarity,
                          answer: string -> Call)
    returns (reply: Option<string>)
    ensures reply == Answer(prompt, fileContent, addon, history, ratio, answer)
  {
    var chunks := Chunker.SplitChunks(fileContent, Chunker.DefaultSize, Chunker.DefaultOverlap);
    var related := Ranker.SearchChunks(prompt, chunks, Ranker.DefaultTopK, ratio);
    var context := Join(ContextSeparator, related);
    var historyText := RenderHistory(history);
    var query := Template(context, historyText, prompt, addon);
    var call := answer(query);
    match call
    case Raised =>
      reply := None;
    case Returned(response) =>
      reply := Some(Reply(response));
  }
}
