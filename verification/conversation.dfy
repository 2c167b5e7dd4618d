/** One conversation turn after the question has been recognised: either an
    action the question asks for (`_do_action`) or a chat answer
    (`_chat`), preset or generated. The language model's stream and the
    synthesiser's busy flag are oracle inputs. */
module Conversation {
  import opened Optional
  import opened Actuation
  import opened Routing
  import opened Segmenter

  /** A `ChatResult` message. */
  datatype ChatResult = ChatResult(question: string, answer: string)

  /** The spoken acknowledgement before a scripted action. */
  const Acknowledge: string := "好的。"

  /** The waving sequence. */
  const WaveHand: ArmRequest :=
    ArmRequest(["hello1", "hello2", "hello1", "hello2", "hello1", "hello2", "home"],
               [2.0, 1.0, 1.0, 1.0, 1.0, 1.0, 2.0])

  /** An arm request names one duration per pose. */
  predicate WellFormed(c: Command)
  {
    c.PlayArm? ==> |c.request.frames| == |c.request.durations|
  }

  /** The speech and commands of an action: wave, handshake (offer the hand
      for 1.5 s, then home for 1.5 s), head shake twice and nod twice are
      acknowledged first; either singing keyword plays the song without a
      word; anything else does nothing. */
  function DoAction(action: string): (r: (seq<string>, seq<Command>))
    ensures action in ActionKeywords && action != "唱歌" && action != "唱首歌" ==> r.0 == [Acknowledge]
    ensures action == "唱歌" || action == "唱首歌" ==> r == ([], [PlayWav("song.wav")])
    ensures action !in ActionKeywords ==> r == ([], [])
    ensures action in ActionKeywords ==> r.1 != []
    ensures forall k :: 0 <= k < |r.1| ==> WellFormed(r.1[k])
  {
    if action == "挥手" then ([Acknowledge], [PlayArm(WaveHand)])
    else if action == "握手" then
      ([Acknowledge], [PlayArm(ArmRequest(["shake_hand"], [1.5])), PlayArm(ArmRequest(["home"], [1.5]))])
    else if action == "摇头" then ([Acknowledge], [ShakeHead(2)])
    else if action == "点头" then ([Acknowledge], [NodHead(2)])
    else if action == "唱歌" || action == "唱首歌" then ([], [PlayWav("song.wav")])
    else ([], [])
  }

  /** The chat answer: a preset answer is spoken and returned as it is and
      the language model is never asked; otherwise the streamed answer is
      spoken chunk by chunk, rewritten, and the raw final response is
      returned. */
  method Chat(question: string, stream: seq<string>, busy: seq<bool>)
    returns (llmUsed: bool, spoken: seq<string>, answer: string)
    requires |busy| == |stream|
    ensures llmUsed <==> SearchPresetAnswer(question).None?
    ensures !llmUsed ==> answer == SearchPresetAnswer(question).value && spoken == [answer]
    ensures llmUsed ==> answer == LastOr(stream) && spoken == Voiced(Segments(stream, busy))
    ensures llmUsed && IsPrefixChain(stream) ==> Concat(spoken) == ReplaceResponseInformation(answer)
  {
    var preset := SearchPresetAnswer(question);
    if preset.Some? {
      llmUsed, spoken, answer := false, [preset.value], preset.value;
    } else {
      var chunks;
      chunks, spoken, answer := StreamChat(stream, busy);
      llmUsed := true;
    }
  }

  /** What a turn answers: nothing for an action, otherwise the chat answer. */
  function TurnAnswer(question: string, stream: seq<string>): string
  {
    if DetectActionKeyword(question).Some? then ""
    else match SearchPresetAnswer(question)
      case Some(a) => a
      case None => LastOr(stream)
  }

  /** What a turn says after "我在". */
  function TurnSpeech(question: string, stream: seq<string>, busy: seq<bool>): seq<string>
    requires |busy| == |stream|
  {
    match DetectActionKeyword(question)
    case Some(action) => DoAction(action).0
    case None =>
      match SearchPresetAnswer(question)
      case Some(a) => [a]
      case None => Voiced(Segments(stream, busy))
  }

  /** The actuation commands of a turn. */
  function TurnCommands(question: string): seq<Command>
  {
    match DetectActionKeyword(question)
    case Some(action) => DoAction(action).1
    case None => []
  }

  /** An action turn answers the empty string, acknowledges, and issues the
      action's commands: asking for a nod nods twice. */
  lemma NodTurn(stream: seq<string>, busy: seq<bool>)
    requires |busy| == |stream|
    ensures TurnAnswer("可以给我点头吗", stream) == ""
    ensures TurnSpeech("可以给我点头吗", stream, busy) == [Acknowledge]
    ensures TurnCommands("可以给我点头吗") == [NodHead(2)]
  {
    DetectNod("可以给我点头吗");
    var nod := "点头";
    assert nod != "挥手" && nod != "握手" && nod != "摇头";
    assert DoAction(nod) == ([Acknowledge], [NodHead(2)]);
  }

  /** A question with no action keyword and a preset answer gets that answer,
      spoken verbatim, whatever the language model would have streamed. */
  lemma PresetTurn(question: string, stream: seq<string>, busy: seq<bool>)
    requires |busy| == |stream|
    requires DetectActionKeyword(question).None? && SearchPresetAnswer(question).Some?
    ensures TurnAnswer(question, stream) == TurnAnswer(question, [])
    ensures TurnSpeech(question, stream, busy) == [TurnAnswer(question, stream)]
    ensures TurnCommands(question) == []
  {
  }

  /** Asking the robot its name is answered from the preset table. */
  lemma NameTurn(stream: seq<string>)
    ensures TurnAnswer("你叫什么名字", stream) == NameAnswer
  {
    NameNoAction("你叫什么名字");
    PresetName();
  }

  /** In a generated-answer turn with a well-behaved stream, the turn's
      speech read back to back is the rewritten answer. */
  lemma GeneratedTurnSpeech(question: string, stream: seq<string>, busy: seq<bool>)
    requires |busy| == |stream| && IsPrefixChain(stream)
    requires DetectActionKeyword(question).None? && SearchPresetAnswer(question).None?
    ensures Concat(TurnSpeech(question, stream, busy)) == ReplaceResponseInformation(TurnAnswer(question, stream))
  {
    var cs := Segments(stream, busy);
    SegmentsReassemble(stream, busy);
    SegmentsHeads(stream, busy);
    VoicedIsRewrittenJoin(cs);
  }
}
