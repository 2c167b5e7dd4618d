/** The chat node's shared state and the sequential steps that change it:
    the face-control message that the viseme consumer, the blink loop and the
    eye-wander loop all write and publish, the viseme queue, the run flags,
    the eye lock, and the logs of what the node says, commands and
    publishes. Each thread's loop body is one method; threads, sleeps and
    their interleaving are not modelled. */
module Node {
  import opened Optional
  import opened Face
  import opened Actuation
  import opened Routing
  import opened Conversation

  /** The greeting before each question is heard. */
  const Ready: string := "我在"

  class HumanoidChatNode {
    /** The pulse widths of the shared face-control message. */
    var pulse: Pulses
    /** Every face-control message published, oldest first. */
    var published: seq<Pulses>
    /** Viseme ids reported by the synthesiser and not yet consumed. */
    var visemeQueue: seq<int>
    var blinkOn: bool
    var eyeMoveOn: bool
    /** Whether the eye lock is held. */
    var eyeHeld: bool
    var gestureOn: bool
    var chatting: bool
    /** Every text handed to speech synthesis, oldest first. */
    var speech: seq<string>
    /** Every arm, neck and audio command issued, oldest first. */
    var commands: seq<Command>
    /** Every chat result published, oldest first. */
    var results: seq<ChatResult>
    /** Every value written to the gesture flag, oldest first. */
    ghost var gestureWrites: seq<bool>

    /** A fresh node: an all-zero face message, blinking and eye wander on,
        the eye lock free, no gesture, not chatting, nothing said or sent. */
    constructor ()
      ensures pulse == map[ChinUpDown := 0, EyesLeftRight := 0, EyesUpDown := 0,
                           LeftEyelidUpDown := 0, RightEyelidUpDown := 0]
      ensures published == [] && visemeQueue == []
      ensures blinkOn && eyeMoveOn && !eyeHeld && !gestureOn && !chatting
      ensures speech == [] && commands == [] && results == [] && gestureWrites == []
    {
      pulse := map[ChinUpDown := 0, EyesLeftRight := 0, EyesUpDown := 0,
                   LeftEyelidUpDown := 0, RightEyelidUpDown := 0];
      published := [];
      visemeQueue := [];
      blinkOn, eyeMoveOn, eyeHeld := true, true, false;
      gestureOn, chatting := false, false;
      speech, commands, results := [], [], [];
      gestureWrites := [];
    }

    /** The synthesiser's viseme callback enqueues the id. */
    method VisemeCallback(id: int)
      modifies this`visemeQueue
      ensures visemeQueue == old(visemeQueue) + [id]
    {
      visemeQueue := visemeQueue + [id];
    }

    /** The viseme consumer drains the queue in arrival order: each mapped
        id sets the jaw and publishes the message, any other id is dropped. */
    method DrainVisemes()
      modifies this`pulse, this`published, this`visemeQueue
      ensures visemeQueue == []
      ensures pulse == Consume(old(pulse), old(visemeQueue)).0
      ensures published == old(published) + Consume(old(pulse), old(visemeQueue)).1
    {
      ghost var queue, start, sent := visemeQueue, pulse, published;
      ghost var k := 0;
      while visemeQueue != []
        invariant 0 <= k <= |queue| && visemeQueue == queue[k..]
        invariant pulse == Consume(start, queue[..k]).0
        invariant published == sent + Consume(start, queue[..k]).1
        decreases |visemeQueue|
      {
        var id := visemeQueue[0];
        visemeQueue := visemeQueue[1..];
        if id in VisemeToChin {
          pulse := pulse[ChinUpDown := VisemeToChin[id]];
          published := published + [pulse];
        }
        assert queue[..k + 1][..k] == queue[..k];
        k := k + 1;
      }
      assert queue[..k] == queue;
    }

    /** One blink: when blinking is on, the eyelids close and the message is
        published, then they open and it is published again. */
    method BlinkStep()
      modifies this`pulse, this`published
      ensures published == old(published) + (if old(blinkOn) then BlinkFrames(old(pulse)) else [])
      ensures pulse == (if old(blinkOn) then BlinkFrames(old(pulse))[1] else old(pulse))
    {
      if blinkOn {
        pulse := pulse[LeftEyelidUpDown := 905];
        pulse := pulse[RightEyelidUpDown := 2088];
        published := published + [pulse];
        pulse := pulse[LeftEyelidUpDown := 1500];
        pulse := pulse[RightEyelidUpDown := 1500];
        published := published + [pulse];
      }
    }

    /** One `for` loop of the eye sweep: the eye azimuth steps through the
        ramp and the message is published after each write. */
    method SweepPhase(from: int, to: int)
      requires (to - from) % 10 == 0 && from != to
      modifies this`pulse, this`published
      ensures published == old(published) + Frames(old(pulse), EyesLeftRight, Ramp(from, to))
      ensures pulse == old(pulse)[EyesLeftRight := if from < to then to - 10 else to + 10]
    {
      var values := Ramp(from, to);
      RampShape(from, to);
      var k := 0;
      while k < |values|
        invariant k <= |values|
        invariant published == old(published) + Frames(old(pulse), EyesLeftRight, values[..k])
        invariant pulse == (if k == 0 then old(pulse) else old(pulse)[EyesLeftRight := values[k - 1]])
      {
        pulse := pulse[EyesLeftRight := values[k]];
        assert pulse == old(pulse)[EyesLeftRight := values[k]];
        published := published + [pulse];
        assert Frames(old(pulse), EyesLeftRight, [values[k]]) == [pulse];
        assert values[..k + 1] == values[..k] + [values[k]];
        FramesAppend(old(pulse), EyesLeftRight, values[..k], [values[k]]);
        k := k + 1;
      }
      assert values[..k] == values;
    }

    /** One eye-wander cycle: only when eye wander is on and the eye lock is
        free, the lock is taken, the eyes sweep left, back, right and back,
        and the lock is released. Otherwise nothing is written and the lock
        is left as it was. */
    method EyeWanderStep()
      modifies this`pulse, this`published, this`eyeHeld
      ensures eyeHeld == old(eyeHeld)
      ensures old(eyeMoveOn) && !old(eyeHeld) ==>
        && published == old(published) + Frames(old(pulse), EyesLeftRight, EyeSweep(EyeCentre, EyeLeft, EyeRight))
        && pulse == old(pulse)[EyesLeftRight := 1510]
      ensures !(old(eyeMoveOn) && !old(eyeHeld)) ==> published == old(published) && pulse == old(pulse)
    {
      if eyeMoveOn && !eyeHeld {
        eyeHeld := true;
        ghost var start, sent := pulse, published;
        SweepPhase(EyeCentre, EyeLeft);
        ghost var f1 := Frames(start, EyesLeftRight, Ramp(EyeCentre, EyeLeft));
        assert published == sent + f1;
        SweepPhase(EyeLeft, EyeCentre);
        ghost var f2 := Frames(start[EyesLeftRight := 1210], EyesLeftRight, Ramp(EyeLeft, EyeCentre));
        assert published == sent + f1 + f2;
        WriteOverrides(start, EyesLeftRight, 1210, 1490);
        SweepPhase(EyeCentre, EyeRight);
        ghost var f3 := Frames(start[EyesLeftRight := 1490], EyesLeftRight, Ramp(EyeCentre, EyeRight));
        assert published == sent + f1 + f2 + f3;
        WriteOverrides(start, EyesLeftRight, 1490, 1790);
        SweepPhase(EyeRight, EyeCentre);
        ghost var f4 := Frames(start[EyesLeftRight := 1790], EyesLeftRight, Ramp(EyeRight, EyeCentre));
        assert published == sent + f1 + f2 + f3 + f4;
        WriteOverrides(start, EyesLeftRight, 1790, 1510);
        SweepPhases(sent, start, EyeCentre, EyeLeft, EyeRight);
        eyeHeld := false;
      }
    }

    /** The `speak` service: refused while speech is being synthesised,
        otherwise the text is spoken and the request succeeds. */
    method SpeakCallback(msg: string, synthesising: bool) returns (ok: bool)
      modifies this`speech
      ensures ok == !synthesising
      ensures speech == old(speech) + (if synthesising then [] else [msg])
    {
      if synthesising {
        ok := false;
      } else {
        speech := speech + [msg];
        ok := true;
      }
    }

    /** `_do_action`: the action's acknowledgement is spoken and its
        commands issued. */
    method DoActionStep(action: string)
      modifies this`speech, this`commands
      ensures speech == old(speech) + DoAction(action).0
      ensures commands == old(commands) + DoAction(action).1
    {
      var (said, sent) := DoAction(action);
      speech := speech + said;
      commands := commands + sent;
    }

    /** The chat branch of a turn: the gesture flag is raised, the answer is
        produced and spoken, and the flag is dropped. */
    method ChatStep(question: string, stream: seq<string>, busy: seq<bool>) returns (answer: string)
      requires |busy| == |stream|
      requires DetectActionKeyword(question).None?
      modifies this`speech, this`gestureOn, this`gestureWrites
      ensures answer == TurnAnswer(question, stream)
      ensures speech == old(speech) + TurnSpeech(question, stream, busy)
      ensures !gestureOn && gestureWrites == old(gestureWrites) + [true, false]
    {
      gestureOn := true;
      gestureWrites := gestureWrites + [true];
      var llmUsed, spoken;
      llmUsed, spoken, answer := Chat(question, stream, busy);
      speech := speech + spoken;
      gestureOn := false;
      gestureWrites := gestureWrites + [false];
    }

    /** The reply to a non-empty question: the action it asks for, or a
        chat answer with the gesture flag raised around it. */
    method Reply(question: string, stream: seq<string>, busy: seq<bool>) returns (answer: string)
      requires |busy| == |stream|
      modifies this`speech, this`commands, this`gestureOn, this`gestureWrites
      ensures answer == TurnAnswer(question, stream)
      ensures speech == old(speech) + TurnSpeech(question, stream, busy)
      ensures commands == old(commands) + TurnCommands(question)
      ensures DetectActionKeyword(question).None? ==> !gestureOn && gestureWrites == old(gestureWrites) + [true, false]
      ensures DetectActionKeyword(question).Some? ==> gestureOn == old(gestureOn) && gestureWrites == old(gestureWrites)
    {
      var action := DetectActionKeyword(question);
      if action.Some? {
        DoActionStep(action.value);
        answer := "";
      } else {
        answer := ChatStep(question, stream, busy);
      }
    }

    /** The handling of a recognised, non-empty question: with the chatting
        flag up, do the action it asks for (answer "") or chat with the
        gesture flag raised; then reset the jaw to 910 without publishing,
        and publish the question and answer. */
    method Answer(question: string, stream: seq<string>, busy: seq<bool>)
      requires |busy| == |stream|
      modifies this`speech, this`commands, this`results, this`chatting, this`gestureOn,
               this`gestureWrites, this`pulse
      ensures speech == old(speech) + TurnSpeech(question, stream, busy)
      ensures commands == old(commands) + TurnCommands(question)
      ensures results == old(results) + [ChatResult(question, TurnAnswer(question, stream))]
      ensures pulse == old(pulse)[ChinUpDown := 910] && !chatting
      ensures DetectActionKeyword(question).None? ==> !gestureOn && gestureWrites == old(gestureWrites) + [true, false]
      ensures DetectActionKeyword(question).Some? ==> gestureOn == old(gestureOn) && gestureWrites == old(gestureWrites)
    {
      chatting := true;
      var answer := Reply(question, stream, busy);
      chatting := false;
      pulse := pulse[ChinUpDown := 910];
      results := results + [ChatResult(question, answer)];
    }

    /** One pass of the main loop after the wake word: say "我在", take the
        recognised question; an empty one ends the pass, any other is
        answered. */
    method Turn(question: string, stream: seq<string>, busy: seq<bool>)
      requires |busy| == |stream|
      modifies this`speech, this`commands, this`results, this`chatting, this`gestureOn,
               this`gestureWrites, this`pulse
      ensures question == [] ==>
        && speech == old(speech) + [Ready]
        && commands == old(commands) && results == old(results) && pulse == old(pulse)
        && chatting == old(chatting) && gestureOn == old(gestureOn) && gestureWrites == old(gestureWrites)
      ensures question != [] ==>
        && speech == old(speech) + [Ready] + TurnSpeech(question, stream, busy)
        && commands == old(commands) + TurnCommands(question)
        && results == old(results) + [ChatResult(question, TurnAnswer(question, stream))]
        && pulse == old(pulse)[ChinUpDown := 910]
        && !chatting
      ensures question != [] && DetectActionKeyword(question).None? ==>
        !gestureOn && gestureWrites == old(gestureWrites) + [true, false]
      ensures question != [] && DetectActionKeyword(question).Some? ==>
        gestureOn == old(gestureOn) && gestureWrites == old(gestureWrites)
    {
      speech := speech + [Ready];
      if question != [] {
        Answer(question, stream, busy);
      }
    }
  }
}
