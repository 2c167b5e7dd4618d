# humanoid_chat node — a Dafny model

This project models the conversational core of the humanoid robot's chat
node (`humanoid_chat_node.py`). The node listens for the wake word and says
"我在". It then takes the recognised question and does one of two things:

- If the question names a scripted action (wave, handshake, head shake,
  nod, singing), it performs it.
- Otherwise it answers. The answer is either a preset one (the robot's name
  or its talents) or text streamed from a language model. Streamed text is
  handed to speech synthesis piece by piece: it is cut at the last delimiter
  whenever the synthesiser is idle, whatever is left when the stream ends is
  handed over without a busy check, and brand names are rewritten. The
  node then publishes the question and answer as a `ChatResult`.

While this happens, background loops drive the face through one shared
`FaceControl` message:

- The viseme consumer sets the jaw from the synthesiser's viseme ids.
- The blink loop closes and opens the eyelids.
- The eye-wander loop sweeps the eyes left, back, right and back.
- The gesture loop sends random talking poses to the arm while the node
  chats, and the home pose when it stops.

A joystick callback raises and lowers the node's flags, plays or stops
music, and interrupts an answer.

Modules:

- `Text` (text.dfy): Python's `in`, `str.rfind` and `str.replace`.
- `Routing` (routing.dfy): the action-keyword lookup, the preset answers and
  the brand-name rewrite.
- `Segmenter` (segmenter.dfy): the streaming loop of `_chat`. It is
  specified by the functions `Run` and `Segments` over the stream of
  responses, and implemented by the methods `SegmentLoop` and `StreamChat`.
- `Face` (face.dfy): the viseme table and consumer, the blink, and the
  eye-sweep ramps.
- `Actuation` (actuation.dfy): the arm, neck and audio requests.
- `Gesture` (gesture.dfy): the gesture loop, both as written and corrected
  (see Findings).
- `Joystick` (joystick.dfy): the joystick callback and the keyword wait.
- `Conversation` (conversation.dfy): `_do_action`, `_chat` and what one
  turn says, commands and answers.
- `Node` (node.dfy): the `HumanoidChatNode` class, holding the node's
  mutable state and one method per loop body or callback.

External services are inputs to the model:

- the language model's stream of responses;
- the synthesiser's "is synthesising" answers;
- the keyword recogniser's results;
- the random choices;
- the joystick's effect on the keyword flag;
- the break flag.

Arm, neck, audio and speech outputs are recorded as logs (`speech`,
`commands`, `published`, `results`).

`_chat` slices `response[synthesis_ptr:sep_ptr]`, so the delimiter at a cut
is left out of the slice it closes and opens the next one, and only the last
delimiter of a response counts. One idle yield of "你好，今天天气不错。" is
spoken as "你好，今天天气不错" and then "。" (`Segmenter.SingleYieldExample`).

## Model

| member | source | states |
|---|---|---|
| Text.Contains | humanoid_chat/humanoid_chat/humanoid_chat_node.py:242-247 | Python's `p in s`: true exactly when `p` occurs at some index of `s` |
| Text.ContainsSlice | humanoid_chat/humanoid_chat/humanoid_chat_node.py:242-247 | every slice of a string is contained in it |
| Text.ContainsTransitive | humanoid_chat/humanoid_chat/humanoid_chat_node.py:242-247 | containment is transitive, so a question containing "你叫什么" contains "你" |
| Text.MissingChar | humanoid_chat/humanoid_chat/humanoid_chat_node.py:438-440 | a pattern holding a character the text lacks is not contained in it |
| Text.RFind | humanoid_chat/humanoid_chat/humanoid_chat_node.py:269 | `str.rfind` of one character: an index holding it with none after it, and -1 exactly when the character is absent |
| Text.ReplaceAbsent | humanoid_chat/humanoid_chat/humanoid_chat_node.py:251 | `str.replace` with a pattern that does not occur returns the text unchanged |
| Text.ReplaceSplit | humanoid_chat/humanoid_chat/humanoid_chat_node.py:251 | replacing in `a + b` equals replacing in `a` and in `b` separately when `b` starts with a character that the pattern does not contain |
| Text.ReplaceAll | humanoid_chat/humanoid_chat/humanoid_chat_node.py:251 | Python's `str.replace`: every non-overlapping occurrence, scanned from the left, is replaced; its properties are `ReplaceAtFirst`, `ReplaceWhole`, `ReplaceAbsent` and `ReplaceSplit` |
| Text.ReplaceAtFirst | humanoid_chat/humanoid_chat/humanoid_chat_node.py:251 | the leftmost occurrence of the pattern is replaced: the text before it is kept, the occurrence becomes the substitute, and replacement resumes right after it |
| Text.ReplaceWhole | humanoid_chat/humanoid_chat/humanoid_chat_node.py:251 | a text that is exactly the pattern becomes exactly the substitute |
| Routing.FirstContained | humanoid_chat/humanoid_chat/humanoid_chat_node.py:438-441 | the first keyword, in list order, that the question contains; None exactly when it contains none |
| Routing.DetectActionKeywordSpec | humanoid_chat/humanoid_chat/humanoid_chat_node.py:437-441 | the detected action is one of the six keywords and is contained in the question; earlier keywords are not contained; None exactly when no keyword is contained |
| Routing.DetectActionKeyword | humanoid_chat/humanoid_chat/humanoid_chat_node.py:437-441 | the first of the six action keywords, in list order, that the question contains; its contract is stated by `DetectActionKeywordSpec` |
| Routing.RouteToNod | humanoid_chat/humanoid_chat/humanoid_chat_node.py:437-441 | a question that contains "点头" and none of the three earlier keywords is routed to the nod |
| Routing.DetectNod | humanoid_chat/humanoid_chat/humanoid_chat_node.py:437-441 | the question "可以给我点头吗" is routed to "点头" |
| Routing.NameNoAction | humanoid_chat/humanoid_chat/humanoid_chat_node.py:437-441 | the question "你叫什么名字" holds none of the six keywords, so no action is detected |
| Routing.SearchPresetAnswer | humanoid_chat/humanoid_chat/humanoid_chat_node.py:241-248 | a preset answer is the name answer or the talent answer, and only a question containing "你" gets one. There is none exactly when no rule matches. The talent answer is given exactly when the question has "你" and "特长" but not "名字". The name answer is given exactly when it has "你" and "名字", or has "你叫什么" but not "特长" |
| Routing.PresetName | humanoid_chat/humanoid_chat/humanoid_chat_node.py:242-247 | "你叫什么名字" gets the name answer |
| Routing.PresetOrder | humanoid_chat/humanoid_chat/humanoid_chat_node.py:242-245 | a question asking both the name and the talent gets the name answer, because that test comes first |
| Routing.PlainTextUnchanged | humanoid_chat/humanoid_chat/humanoid_chat_node.py:250-251 | text containing none of the three brand names is not changed by the rewrite |
| Routing.ReplaceResponseInformation | humanoid_chat/humanoid_chat/humanoid_chat_node.py:250-251 | the three brand-name replacements, applied in source order; its properties are `BrandRewritten`, `ModelNameRewritten`, `ThirdNameRewritten`, `PlainTextUnchanged` and `Segmenter.RewriteSplit` |
| Routing.ProfessorStable | humanoid_chat/humanoid_chat/humanoid_chat_node.py:250-251 | the substitute for the company name contains neither later brand name, so the later two rewrites leave it alone |
| Routing.BrandRewritten | humanoid_chat/humanoid_chat/humanoid_chat_node.py:250-251 | the company name "科大讯飞" is spoken as "华南理工大学张智军教授" |
| Routing.ModelNameRewritten | humanoid_chat/humanoid_chat/humanoid_chat_node.py:250-251 | the model's product name "讯飞星火认知大模型" is spoken as "类人机器人" |
| Routing.ThirdNameRewritten | humanoid_chat/humanoid_chat/humanoid_chat_node.py:250-251 | the cognitive model's name "认知智能大模型" is spoken as "类人机器人" |
| Segmenter.LastOfAny | humanoid_chat/humanoid_chat/humanoid_chat_node.py:269 | the largest `rfind` over a set of characters: the last index holding one of them, or -1 when none occurs |
| Segmenter.CutPoint | humanoid_chat/humanoid_chat/humanoid_chat_node.py:269 | the position of the response's last delimiter (one of the eight), or -1 when it has none |
| Segmenter.CutPointIsLargestRFind | humanoid_chat/humanoid_chat/humanoid_chat_node.py:269 | the cut point equals the largest of the eight `rfind` results |
| Segmenter.Step | humanoid_chat/humanoid_chat/humanoid_chat_node.py:268-272 | one yield of the loop: the watermark never moves back, and it moves only when synthesis is idle, and then to the response's cut |
| Segmenter.Run | humanoid_chat/humanoid_chat/humanoid_chat_node.py:264-273 | the loop state after the first n yields; its properties are `RunCovers`, `RunMonotone`, `RunChunks`, `RunEndsAtCut` and `RunJoinedLength` |
| Segmenter.Segments | humanoid_chat/humanoid_chat/humanoid_chat_node.py:264-276 | the loop's submissions, then the remainder after the watermark when it is non-empty; its properties are `SegmentsReassemble`, `SegmentsChunks` and `SegmentsHeads` |
| Segmenter.StepCovers | humanoid_chat/humanoid_chat/humanoid_chat_node.py:268-273 | one yield keeps the loop invariant: the slices submitted so far join to the response up to the watermark, the watermark sits on a delimiter, and every slice after the first starts with a delimiter |
| Segmenter.RunCovers | humanoid_chat/humanoid_chat/humanoid_chat_node.py:262-273 | the invariant holds after every yield of a stream in which each response extends the previous one |
| Segmenter.SegmentsReassemble | humanoid_chat/humanoid_chat/humanoid_chat_node.py:262-276 | the submitted slices, in order, concatenate to exactly the final response |
| Segmenter.RunMonotone | humanoid_chat/humanoid_chat/humanoid_chat_node.py:270-272 | the watermark never decreases, and earlier submissions are never changed |
| Segmenter.RunChunks | humanoid_chat/humanoid_chat/humanoid_chat_node.py:268-272 | every in-loop submission is made at an idle yield and is non-empty, at most one per yield and in yield order. Its length is the distance from the previous cut (or 0) to its own yield's cut, so the submissions so far end exactly at the last cut. The watermark is the cut of the last submission |
| Segmenter.RunEndsAtCut | humanoid_chat/humanoid_chat/humanoid_chat_node.py:268-272 | each in-loop submission is a slice of its own yield's response that ends exactly where that response's last delimiter begins |
| Segmenter.RunJoinedLength | humanoid_chat/humanoid_chat/humanoid_chat_node.py:268-272 | the submissions made so far join to exactly as many characters as the watermark has passed |
| Segmenter.SegmentsChunks | humanoid_chat/humanoid_chat/humanoid_chat_node.py:264-276 | over a whole stream every submission is non-empty, every in-loop submission is made at an idle yield (the remainder at stream end is submitted without a busy check), and they come in order, the remainder last |
| Segmenter.SegmentsHeads | humanoid_chat/humanoid_chat/humanoid_chat_node.py:270-276 | every submission after the first begins with the delimiter that the previous cut stopped before |
| Segmenter.RewriteSplit | humanoid_chat/humanoid_chat/humanoid_chat_node.py:271 | the brand rewrite distributes over a cut placed before a delimiter, since no brand name contains a delimiter |
| Segmenter.VoicedIsRewrittenJoin | humanoid_chat/humanoid_chat/humanoid_chat_node.py:271-276 | what is spoken, read back to back, is the rewrite of the joined slices |
| Segmenter.SegmentsSpoken | humanoid_chat/humanoid_chat/humanoid_chat_node.py:262-276 | over a whole stream every submission is non-empty and every in-loop submission is made at an idle yield (the remainder at stream end is submitted without a busy check); for a growing stream the submissions join to the final response and the speech joins to its rewrite |
| Segmenter.SegmentLoop | humanoid_chat/humanoid_chat/humanoid_chat_node.py:262-273 | the loop over the yields ends with the watermark and submissions that `Run` specifies, has spoken each submission rewritten, and holds the last response |
| Segmenter.StreamChat | humanoid_chat/humanoid_chat/humanoid_chat_node.py:259-279 | the loop submits exactly the specified slices, speaks them rewritten, and returns the final response. Every slice is non-empty, and every in-loop slice is made at an idle yield; the remainder at stream end is submitted without a busy check. For a growing stream the slices join to the answer, and the speech joins to the rewritten answer |
| Segmenter.SingleYieldExample | humanoid_chat/humanoid_chat/humanoid_chat_node.py:268-276 | one idle yield of "你好，今天天气不错。" is spoken as "你好，今天天气不错" and then "。" |
| Segmenter.GrowingStreamExample | humanoid_chat/humanoid_chat/humanoid_chat_node.py:264-276 | three growing yields "你好", "你好，今天", "你好，今天天气不错。" with synthesis idle are spoken as "你好", "，今天天气不错" and "。": each cut opens the next slice with its delimiter |
| Segmenter.BusyYieldExample | humanoid_chat/humanoid_chat/humanoid_chat_node.py:268 | a yield that finds synthesis busy makes no cut; the next idle yield cuts past it |
| Segmenter.AllBusyRun | humanoid_chat/humanoid_chat/humanoid_chat_node.py:268 | when every yield finds synthesis busy, the loop makes no cut and submits nothing |
| Segmenter.AllBusyRemainder | humanoid_chat/humanoid_chat/humanoid_chat_node.py:268-276 | the remainder is submitted without a busy check: with synthesis busy at every yield, the whole non-empty final response is still submitted, as one slice, after the last yield |
| Face.VisemeTableShape | humanoid_chat/humanoid_chat/humanoid_chat_node.py:93-116 | the viseme table maps exactly the ids 0..21, each to a jaw pulse of 910, 980, 1000 or 1100 |
| Face.ConsumeOne | humanoid_chat/humanoid_chat/humanoid_chat_node.py:117-121 | one pass of the viseme consumer: a mapped id sets the jaw to its pulse and publishes once, any other id is dropped; its properties are `ConsumeInOrder` and `ConsumeOnlyMovesJaw` |
| Face.Consume | humanoid_chat/humanoid_chat/humanoid_chat_node.py:117-121 | the consumer over a queue of ids, oldest first; its properties are `ConsumeInOrder` and `ConsumeOnlyMovesJaw` |
| Face.Mapped | humanoid_chat/humanoid_chat/humanoid_chat_node.py:119 | the ids kept are those in the table |
| Face.ConsumeInOrder | humanoid_chat/humanoid_chat/humanoid_chat_node.py:117-121 | one message is published per mapped id, in arrival order, each with that id's jaw pulse; unmapped ids publish nothing |
| Face.ConsumeOnlyMovesJaw | humanoid_chat/humanoid_chat/humanoid_chat_node.py:117-121 | consuming visemes changes only the jaw channel, in the state and in every message published (each message is the starting one with only its jaw value set), and the jaw only takes table values |
| Face.BlinkFrames | humanoid_chat/humanoid_chat/humanoid_chat_node.py:219-227 | a blink publishes two messages: eyelids at 905/2088, then both at 1500; every other channel is unchanged |
| Face.Ramp | humanoid_chat/humanoid_chat/humanoid_chat_node.py:184-208 | Python's `range(from, to, 10)` or `range(from, to, -10)`; its properties are `RampShape` |
| Face.EyeSweep | humanoid_chat/humanoid_chat/humanoid_chat_node.py:184-208 | the azimuths of the four loops in order: to the left, back to centre, to the right, back to centre; its properties are `EyeSweepShape` |
| Face.RampShape | humanoid_chat/humanoid_chat/humanoid_chat_node.py:184-208 | Python `range(from, to, ±10)`: starts at `from`, moves by 10 towards `to`, and stops before it |
| Face.EyeSweepShape | humanoid_chat/humanoid_chat/humanoid_chat_node.py:184-208 | the four loops write 120 azimuths: from 1500, within 1200..1800, changing by 10 at each step, and ending at 1510 |
| Face.SweepPhases | humanoid_chat/humanoid_chat/humanoid_chat_node.py:182-208 | the four loops, each starting from the message the previous one left, publish the same messages as one sweep over the whole azimuth sequence |
| Face.FramesTrack | humanoid_chat/humanoid_chat/humanoid_chat_node.py:184-208 | a loop writing one channel publishes one message per value: the channel reads back as exactly the values written, in order, and no other channel moves |
| Face.SweepFramesShape | humanoid_chat/humanoid_chat/humanoid_chat_node.py:182-208 | a sweep publishes 120 messages with the azimuth in 1200..1800 and steps of 10; the last one is the start message with the azimuth at 1510 |
| Gesture.Resample | humanoid_chat/humanoid_chat/humanoid_chat_node.py:165-166 | the first random draw whose pose differs from the current one; every earlier draw equals it |
| Gesture.FirstPose | humanoid_chat/humanoid_chat/humanoid_chat_node.py:165-166 | as written, the pose picked at a tick is a listed pose: the first draw, since `current_gesture` stays None |
| Gesture.Tick | humanoid_chat/humanoid_chat/humanoid_chat_node.py:152-169 | what one tick sends: a pose while the flag is up, home when the flag has just fallen, nothing otherwise; its properties are `SendsCounts` and `SendsRequests` |
| Gesture.Sends | humanoid_chat/humanoid_chat/humanoid_chat_node.py:152-169 | the requests of the first n ticks of the thread as written; its properties are `SendsCounts`, `SendsRequests` and `RepeatedPose` |
| Gesture.SendsCounts | humanoid_chat/humanoid_chat/humanoid_chat_node.py:148-170 | over the ticks: one pose per tick with the flag raised, one home per fall of the flag, and nothing else |
| Gesture.SendsRequests | humanoid_chat/humanoid_chat/humanoid_chat_node.py:148-170 | every request the thread sends is home, or a single listed pose held for 2 s |
| Gesture.GestureLoop | humanoid_chat/humanoid_chat/humanoid_chat_node.py:148-170 | the loop sends exactly the specified requests, with as many homes as falls and as many poses as raised ticks |
| Gesture.RepeatedPose | humanoid_chat/humanoid_chat/humanoid_chat_node.py:150-169 | as written, two raised ticks that both draw "talk1" send "talk1" twice in a row |
| Gesture.FixedPose | humanoid_chat/humanoid_chat/humanoid_chat_node.py:165-167 | with the fix, the pose picked is a listed pose different from the pose sent last |
| Gesture.FixedTick | humanoid_chat/humanoid_chat/humanoid_chat_node.py:152-169 | one tick of the corrected thread, which records the pose it sends; its properties are `NoRepeatStep` |
| Gesture.FixedRun | humanoid_chat/humanoid_chat/humanoid_chat_node.py:152-169 | the corrected thread after n ticks; its properties are `FixedNoRepeat` and `FixedHomes` |
| Gesture.NoRepeatStep | humanoid_chat/humanoid_chat/humanoid_chat_node.py:163-169 | one tick of the fixed thread keeps consecutive poses distinct and the recorded pose equal to the last pose sent |
| Gesture.FixedNoRepeat | humanoid_chat/humanoid_chat/humanoid_chat_node.py:150-167 | with the current pose recorded, no two consecutive poses sent are equal, and homes still match falls |
| Gesture.FixedHomes | humanoid_chat/humanoid_chat/humanoid_chat_node.py:148-170 | the fix keeps one home per fall of the flag and one pose per tick with the flag raised |
| Gesture.FixedStep | humanoid_chat/humanoid_chat/humanoid_chat_node.py:152-169 | one pass of the fixed loop body sends what the fixed tick specifies, records the pose sent, and leaves `running` equal to the flag it read |
| Gesture.FixedGestureLoop | humanoid_chat/humanoid_chat/humanoid_chat_node.py:148-170 | the corrected loop sends the specified requests, and no pose follows itself |
| Joystick.JoyCallback | humanoid_chat/humanoid_chat/humanoid_chat_node.py:130-146 | the five guarded updates, applied in the callback's order, sum up to this: the keyword flag ends set exactly when it was set or button 0 is pressed; chatting ends up exactly when it was up and button 4 did not break the stream; music plays afterwards exactly when it was playing or the d-pad started it, and button 3 was not pressed |
| Joystick.JoyWake | humanoid_chat/humanoid_chat/humanoid_chat_node.py:131-137 | keyword recognition is stopped exactly when button 0 is pressed with the flag clear; the greeting happens exactly when button 1 is pressed and the node is not chatting |
| Joystick.JoyMusic | humanoid_chat/humanoid_chat/humanoid_chat_node.py:138-141 | the song starts exactly when the d-pad is up and nothing plays; playback is stopped exactly when button 3 is pressed and music plays, including a song this message started |
| Joystick.JoyBreak | humanoid_chat/humanoid_chat/humanoid_chat_node.py:142-146 | the stream is broken exactly when button 4 is pressed and it is not already breaking, and speech is stopped exactly when, in addition, it is being synthesised |
| Joystick.JoyOrder | humanoid_chat/humanoid_chat/humanoid_chat_node.py:130-146 | the commands come out in the callback's order (stop recognition, greeting, song, stop playback, break, stop speaking), each at most once |
| Joystick.JoyFlagsSettle | humanoid_chat/humanoid_chat/humanoid_chat_node.py:130-146 | handling a repeated message again leaves the flags unchanged and does not stop keyword recognition a second time |
| Joystick.FirstStop | humanoid_chat/humanoid_chat/humanoid_chat_node.py:369-374 | the first attempt at which recognition succeeded or the flag was set; None exactly when neither ever happened |
| Joystick.DetectKeyword | humanoid_chat/humanoid_chat/humanoid_chat_node.py:366-375 | the wait ends exactly at the first such attempt, or runs out of attempts when there is none |
| Conversation.DoAction | humanoid_chat/humanoid_chat/humanoid_chat_node.py:417-435 | the four motions are acknowledged with "好的。" and issue well-formed commands; singing plays the song silently; any other string does nothing |
| Conversation.Chat | humanoid_chat/humanoid_chat/humanoid_chat_node.py:253-279 | the language model is used exactly when there is no preset; a preset is spoken verbatim and returned; otherwise the spoken pieces join to the rewritten final response, which is returned raw |
| Conversation.TurnAnswer | humanoid_chat/humanoid_chat/humanoid_chat_node.py:488-496 | a turn's answer: "" for an action, else the preset answer, else the last response streamed; its properties are `NodTurn`, `PresetTurn` and `NameTurn` |
| Conversation.TurnSpeech | humanoid_chat/humanoid_chat/humanoid_chat_node.py:488-496 | what a turn speaks: the action's acknowledgement, the preset answer, or the rewritten slices; its properties are `NodTurn`, `PresetTurn` and `GeneratedTurnSpeech` |
| Conversation.TurnCommands | humanoid_chat/humanoid_chat/humanoid_chat_node.py:488-496 | a turn's actuation commands: the action's, or none; its properties are `NodTurn` and `PresetTurn` |
| Conversation.NodTurn | humanoid_chat/humanoid_chat/humanoid_chat_node.py:430-441 | "可以给我点头吗" is routed to the nod: it acknowledges with "好的。", nods twice, and the turn answers "" |
| Conversation.PresetTurn | humanoid_chat/humanoid_chat/humanoid_chat_node.py:254-258 | a preset question's answer does not depend on the stream, is spoken verbatim, and issues no command |
| Conversation.NameTurn | humanoid_chat/humanoid_chat/humanoid_chat_node.py:241-247 | "你叫什么名字" triggers no action and is answered with the name |
| Conversation.GeneratedTurnSpeech | humanoid_chat/humanoid_chat/humanoid_chat_node.py:259-279 | in a generated turn the speech, read back to back, is the rewritten answer |
| Node.HumanoidChatNode.constructor | humanoid_chat/humanoid_chat/humanoid_chat_node.py:50-86 | blink and eye wander on, eye lock free, gesture off, not chatting, empty queue and logs |
| Node.HumanoidChatNode.VisemeCallback | humanoid_chat/humanoid_chat/humanoid_chat_node.py:238-239 | the id is appended to the queue |
| Node.HumanoidChatNode.DrainVisemes | humanoid_chat/humanoid_chat/humanoid_chat_node.py:117-121 | the queue is consumed in order; the state and published messages are those of `Consume` |
| Node.HumanoidChatNode.BlinkStep | humanoid_chat/humanoid_chat/humanoid_chat_node.py:216-227 | when blinking is on, the two blink messages are published and the eyelids end open; otherwise nothing changes |
| Node.HumanoidChatNode.SweepPhase | humanoid_chat/humanoid_chat/humanoid_chat_node.py:184-186 | one `for` loop publishes one message per ramp value, each with the azimuth at that value, and leaves the last value in the message |
| Node.HumanoidChatNode.EyeWanderStep | humanoid_chat/humanoid_chat/humanoid_chat_node.py:182-209 | when eye wander is on and the lock is free: the full sweep is published, the azimuth ends at 1510 and the lock is released. Otherwise nothing changes |
| Node.HumanoidChatNode.SpeakCallback | humanoid_chat/humanoid_chat/humanoid_chat_node.py:229-236 | refused, with nothing spoken, exactly while synthesising; otherwise the text is spoken |
| Node.HumanoidChatNode.DoActionStep | humanoid_chat/humanoid_chat/humanoid_chat_node.py:417-435 | appends the action's speech and commands |
| Node.HumanoidChatNode.ChatStep | humanoid_chat/humanoid_chat/humanoid_chat_node.py:493-496 | the gesture flag is raised and then dropped around a chat; the turn's answer and speech result |
| Node.HumanoidChatNode.Reply | humanoid_chat/humanoid_chat/humanoid_chat_node.py:490-496 | an action question leaves the gesture flag alone and answers ""; any other question chats |
| Node.HumanoidChatNode.Answer | humanoid_chat/humanoid_chat/humanoid_chat_node.py:487-506 | the turn's speech and commands are logged, chatting ends lowered, the gesture flag is raised and dropped exactly for a chat, the jaw is set to 910 without publishing, and one result is published with the question and the turn's answer |
| Node.HumanoidChatNode.Turn | humanoid_chat/humanoid_chat/humanoid_chat_node.py:474-506 | after "我在": an empty question changes nothing else; any other is answered as `Answer` states |

## Left out

- Threads, sleeps and their interleaving: each loop body and callback is one method, run atomically. Races on the shared face message, and a joystick press landing mid-turn, are not modelled.
- `_welcome` (lines 443-447): modelled as the single abstract command `Welcome`; its speech and wave are not spelled out.
- `_shake_head` and `_nod_head` are each kept as one opaque command, `ShakeHead(n)` / `NodHead(n)`: `_shake_head` sweeps NumPy float ranges of yaw angles, and `_nod_head` publishes fixed float neck velocities between sleeps.
- `_rolling_eyes` uses trigonometric floating point and the wall clock.
- `_play_wav_file` process handling (`aplay`, `poll`, `terminate`) is reduced to the joystick's `playing` flag and `PlayWav` / `StopPlayback` commands.
- Setup-only steps (`_fix_leg_motor`, `_enter_teach_mode`, `_calibration_arm`, `_test_random_gesture`, `_draw_pitcure` and the preamble of `_main_loop` up to line 473) are one-off hardware calibration and are not part of this model.
- The Azure speech service and the SparkDesk model are not part of this model. Their answers are oracle inputs: `stream`, `busy`, `recognized`, `pressed`, `breaking`, `synthesising`.
- Logging and `print` output are not modelled.
- `FaceControl()`'s default pulse widths are not part of this model: the constructor starts every channel at 0.
- Joystick.JoyCallback: requires at least 5 buttons and 8 axes. A shorter message raises `IndexError` in the source, which is not modelled.
- Joystick.DetectKeyword: the wait is bounded by the number of oracle attempts. The source may retry forever.
- Node.HumanoidChatNode.DrainVisemes: the blocking `queue.get()` is modelled as draining what is queued.
- Gesture.Resample: the source also draws once inside the loop body (line 166) and then discards that value. The model keeps only the draws the loop condition inspects.
- Segmenter.CutPoint: it is computed by one backward scan. Its equality with the largest of the eight `rfind` results is the lemma `CutPointIsLargestRFind`.
- Node.HumanoidChatNode.EyeWanderStep: its ensures states the published messages as `Frames(old(pulse), EyesLeftRight, EyeSweep(EyeCentre, EyeLeft, EyeRight))`. The bounds and step size are stated by the lemmas `SweepFramesShape` and `EyeSweepShape` rather than repeated there.

## Findings

| source | as written | input that shows it | evidently intended | confidence | as-written member | corrected member |
|---|---|---|---|---|---|---|
| humanoid_chat/humanoid_chat/humanoid_chat_node.py:150-167 | `current_gesture` is set to None once and never updated, so the resample loop never rejects a draw | gesture flag raised for two ticks, both draws `talk1`: `talk1` is sent twice in a row | record the pose sent, so consecutive poses differ | not executed | Gesture.RepeatedPose | Gesture.FixedNoRepeat |
