/** The joystick handler and the wake-word wait. The joystick callback is one
    pass over a `Joy` message's buttons and axes that updates the node's flags
    and issues commands; the keyword wait retries recognition until it
    succeeds or the joystick sets the detected flag. The speech service, the
    language model's break flag and the audio player's liveness are oracle
    inputs. */
module Joystick {
  import opened Optional
  import opened Actuation


  /** What a joystick message can make the node do. `Welcome` is the whole
      greeting (speech and wave); `Actuate` is an actuation command, here
      playing a sound file. */
  datatype JoyCommand =
    | StopKeywordRecognition
    | Welcome
    | Actuate(command: Command)
    | StopPlayback
    | BreakStream
    | StopSpeaking

  /** The position of each command's step in the callback. */
  function Rank(c: JoyCommand): nat
  {
    match c
    case StopKeywordRecognition => 0
    case Welcome => 1
    case Actuate(_) => 2
    case StopPlayback => 3
    case BreakStream => 4
    case StopSpeaking => 5
  }

  /** The node state the callback reads and writes: the keyword flag, the
      chatting flag, and whether the audio player is running. */
  datatype JoyFlags = JoyFlags(keywordDetected: bool, chatting: bool, playing: bool)

  /** One joystick message, handled by five guarded updates in the
      callback's order, each issuing its command: button 0 stops keyword
      recognition once; button 1 greets unless chatting (the flag is raised
      for the greeting and dropped after it, so it ends as it was); the d-pad
      up axis above 0.9 starts the music unless it is playing; button 3 stops
      the music if it is playing, including music the same message just
      started; button 4 breaks the stream unless it is already breaking,
      clears chatting and stops speech if speech is being synthesised. */
  function JoyCallback(f: JoyFlags, buttons: seq<int>, axes: seq<real>, breaking: bool, synthesising: bool)
    : (r: (JoyFlags, seq<JoyCommand>))
    requires |buttons| >= 5 && |axes| >= 8
    ensures r.0.keywordDetected == (f.keywordDetected || buttons[0] == 1)
    ensures r.0.chatting <==> f.chatting && !(buttons[4] == 1 && !breaking)
    ensures r.0.playing <==> (f.playing || axes[7] > 0.9) && buttons[3] != 1
  {
    var detect := !f.keywordDetected && buttons[0] == 1;
    var f1 := if detect then f.(keywordDetected := true) else f;
    var c1 := Emit([], detect, StopKeywordRecognition);
    var greet := buttons[1] == 1 && !f1.chatting;
    var f2 := f1;
    var c2 := Emit(c1, greet, Welcome);
    var start := axes[7] > 0.9 && !f2.playing;
    var f3 := if start then f2.(playing := true) else f2;
    var c3 := Emit(c2, start, Actuate(PlayWav("ngm.wav")));
    var stop := buttons[3] == 1 && f3.playing;
    var f4 := if stop then f3.(playing := false) else f3;
    var c4 := Emit(c3, stop, StopPlayback);
    var brk := buttons[4] == 1 && !breaking;
    var f5 := if brk then f4.(chatting := false) else f4;
    var c5 := Emit(c4, brk, BreakStream);
    (f5, Emit(c5, brk && synthesising, StopSpeaking))
  }

  /** The first two commands: button 0 stops keyword recognition only while
      the keyword has not been detected, and button 1 greets only when the
      node is not chatting. */
  lemma JoyWake(f: JoyFlags, buttons: seq<int>, axes: seq<real>, breaking: bool, synthesising: bool)
    requires |buttons| >= 5 && |axes| >= 8
    ensures var r := JoyCallback(f, buttons, axes, breaking, synthesising).1;
      && (StopKeywordRecognition in r <==> !f.keywordDetected && buttons[0] == 1)
      && (Welcome in r <==> buttons[1] == 1 && !f.chatting)
  {
  }

  /** The music commands: the d-pad starts the song only when nothing is
      playing, and button 3 stops whatever is playing, including a song the
      same message just started. */
  lemma JoyMusic(f: JoyFlags, buttons: seq<int>, axes: seq<real>, breaking: bool, synthesising: bool)
    requires |buttons| >= 5 && |axes| >= 8
    ensures var r := JoyCallback(f, buttons, axes, breaking, synthesising).1;
      && (Actuate(PlayWav("ngm.wav")) in r <==> axes[7] > 0.9 && !f.playing)
      && (StopPlayback in r <==> buttons[3] == 1 && (f.playing || axes[7] > 0.9))
  {
  }

  /** The break commands: button 4 breaks the stream unless it is already
      breaking, and then also stops speech that is being synthesised. */
  lemma JoyBreak(f: JoyFlags, buttons: seq<int>, axes: seq<real>, breaking: bool, synthesising: bool)
    requires |buttons| >= 5 && |axes| >= 8
    ensures var r := JoyCallback(f, buttons, axes, breaking, synthesising).1;
      && (BreakStream in r <==> buttons[4] == 1 && !breaking)
      && (StopSpeaking in r <==> buttons[4] == 1 && !breaking && synthesising)
  {
  }

  /** The commands come out in the callback's order, each at most once: the
      song is started before it can be stopped, and the stream is broken
      before speech is stopped. */
  lemma JoyOrder(f: JoyFlags, buttons: seq<int>, axes: seq<real>, breaking: bool, synthesising: bool)
    requires |buttons| >= 5 && |axes| >= 8
    ensures var r := JoyCallback(f, buttons, axes, breaking, synthesising).1;
      forall i, j :: 0 <= i < j < |r| ==> Rank(r[i]) < Rank(r[j])
  {
  }

  /** The commands so far, followed by `c` when the guard holds. */
  function Emit(cmds: seq<JoyCommand>, guard: bool, c: JoyCommand): (r: seq<JoyCommand>)
    ensures forall d :: d in r <==> d in cmds || (guard && d == c)
  {
    if guard then cmds + [c] else cmds
  }

  /** The joystick topic repeats a held message; handling it again leaves
      the flags where the first pass put them and stops keyword recognition
      no second time. */
  lemma JoyFlagsSettle(f: JoyFlags, buttons: seq<int>, axes: seq<real>, breaking: bool, synthesising: bool)
    requires |buttons| >= 5 && |axes| >= 8
    ensures var g := JoyCallback(f, buttons, axes, breaking, synthesising).0;
      && JoyCallback(g, buttons, axes, breaking, synthesising).0 == g
      && StopKeywordRecognition !in JoyCallback(g, buttons, axes, breaking, synthesising).1
  {
    var g := JoyCallback(f, buttons, axes, breaking, synthesising).0;
    var h := JoyCallback(g, buttons, axes, breaking, synthesising).0;
    assert h.keywordDetected == g.keywordDetected;
    assert h.chatting == g.chatting;
    assert h.playing == g.playing;
  }

  /** The first attempt after which the keyword wait stops: the recognizer
      reported the keyword, or the joystick set the flag meanwhile. */
  function FirstStop(recognized: seq<bool>, pressed: seq<bool>): (r: Option<nat>)
    requires |pressed| == |recognized|
    ensures r.Some? ==> r.value < |recognized| && (recognized[r.value] || pressed[r.value])
    ensures r.Some? ==> forall j :: 0 <= j < r.value ==> !recognized[j] && !pressed[j]
    ensures r.None? <==> forall j :: 0 <= j < |recognized| ==> !recognized[j] && !pressed[j]
    decreases |recognized|
  {
    if recognized == [] then None
    else if recognized[0] || pressed[0] then Some(0)
    else match FirstStop(recognized[1..], pressed[1..])
      case None => None
      case Some(i) => Some(i + 1)
  }

  /** The keyword wait, run against `|recognized|` recognition attempts:
      `recognized[i]` is what attempt `i` returns and `pressed[i]` whether
      the joystick set the detected flag while it ran. The flag is cleared
      on entry, so a press before the wait does not count. Returns how many
      attempts were made and whether the wait ended (as opposed to running
      out of attempts); when it ends the flag is set. */
  method DetectKeyword(recognized: seq<bool>, pressed: seq<bool>) returns (attempts: nat, detected: bool)
    requires |pressed| == |recognized|
    ensures detected <==> FirstStop(recognized, pressed).Some?
    ensures detected ==> attempts == FirstStop(recognized, pressed).value + 1
    ensures !detected ==> attempts == |recognized|
  {
    detected := false;
    attempts := 0;
    while !detected && attempts < |recognized|
      invariant attempts <= |recognized|
      invariant forall j :: 0 <= j < attempts - (if detected then 1 else 0) ==> !recognized[j] && !pressed[j]
      invariant detected ==> attempts > 0 && (recognized[attempts - 1] || pressed[attempts - 1])
    {
      if pressed[attempts] {
        detected := true;
      }
      if recognized[attempts] {
        detected := true;
      }
      attempts := attempts + 1;
    }
  }
}
