/** The idle-gesture thread: once a second it reads the node's gesture flag;
    while the flag is up it sends one randomly chosen talking pose, and when
    the flag drops it sends the home pose once. The random choices are an
    oracle: `draws[i]` lists the indices into the pose list that
    `random.choice` returns, in order, each time the resampling loop's
    condition is evaluated at tick `i`. (The loop body's own draw is always
    overwritten by the condition's next draw, so it never matters.) */
module Gesture {
  import opened Actuation
  import opened Optional

  /** The idle-gesture poses. */
  const GestureList: seq<string> := ["talk1", "talk2", "talk3", "talk4"]

  /** Valid draws: indices into the pose list. */
  ghost predicate ValidDraws(draws: seq<nat>)
  {
    forall j :: 0 <= j < |draws| ==> draws[j] < |GestureList|
  }

  /** The resampling loop: the first draw whose pose differs from `current`. */
  function Resample(draws: seq<nat>, current: Option<string>): (k: nat)
    requires ValidDraws(draws)
    requires exists j :: 0 <= j < |draws| && Some(GestureList[draws[j]]) != current
    ensures k < |draws| && Some(GestureList[draws[k]]) != current
    ensures forall j :: 0 <= j < k ==> Some(GestureList[draws[j]]) == current
  {
    if Some(GestureList[draws[0]]) != current then 0
    else
      var j :| 0 <= j < |draws| && Some(GestureList[draws[j]]) != current;
      assert ValidDraws(draws[1..]) && 0 < j && Some(GestureList[draws[1..][j - 1]]) != current;
      1 + Resample(draws[1..], current)
  }

  /** The oracle gives every gesture tick at least one draw. */
  ghost predicate ValidOracle(on: seq<bool>, draws: seq<seq<nat>>)
  {
    |draws| == |on| && forall i :: 0 <= i < |on| ==> draws[i] != [] && ValidDraws(draws[i])
  }

  /** What one tick sends, given whether a gesture was running before it,
      the flag it reads and the pose it would pick. */
  function Tick(running: bool, on: bool, pose: string): seq<ArmRequest>
  {
    if on then [Pose(pose)]
    else if running then [Home]
    else []
  }

  /** The pose the thread as written picks from one tick's draws: with
      `current_gesture` None, the first draw. */
  function FirstPose(d: seq<nat>): (pose: string)
    requires d != [] && ValidDraws(d)
    ensures pose in GestureList
  {
    assert Some(GestureList[d[0]]) != None;
    GestureList[d[Resample(d, None)]]
  }

  /** The requests sent in the first `n` ticks by the thread as written:
      `current_gesture` stays None, so the first draw is always taken. The
      gesture is running before tick `i` exactly when the flag was up at
      tick `i - 1`. */
  function Sends(on: seq<bool>, draws: seq<seq<nat>>, n: nat): seq<ArmRequest>
    requires ValidOracle(on, draws) && n <= |on|
  {
    if n == 0 then []
    else Sends(on, draws, n - 1) + Tick(n > 1 && on[n - 2], on[n - 1], FirstPose(draws[n - 1]))
  }

  /** Number of ticks among the first `n` at which the flag was up. */
  function Ons(on: seq<bool>, n: nat): nat
    requires n <= |on|
  {
    if n == 0 then 0 else Ons(on, n - 1) + (if on[n - 1] then 1 else 0)
  }

  /** Number of ticks among the first `n` at which the flag had just dropped. */
  function Falls(on: seq<bool>, n: nat): nat
    requires n <= |on|
  {
    if n == 0 then 0 else Falls(on, n - 1) + (if n > 1 && on[n - 2] && !on[n - 1] then 1 else 0)
  }

  /** Number of home requests in a list of requests. */
  function Homes(sent: seq<ArmRequest>): nat
  {
    if sent == [] then 0 else Homes(sent[..|sent| - 1]) + (if sent[|sent| - 1] == Home then 1 else 0)
  }

  /** The poses of the gesture requests (everything but home), in order. */
  function Picks(sent: seq<ArmRequest>): seq<string>
  {
    if sent == [] then []
    else Picks(sent[..|sent| - 1]) + (if sent[|sent| - 1] == Home then [] else sent[|sent| - 1].frames)
  }

  lemma HomesAppend(a: seq<ArmRequest>, b: seq<ArmRequest>)
    requires |b| <= 1
    ensures Homes(a + b) == Homes(a) + Homes(b)
    ensures Picks(a + b) == Picks(a) + Picks(b)
  {
    if b != [] {
      assert (a + b)[..|a + b| - 1] == a;
      assert b[..|b| - 1] == [];
      assert Homes(b) == (if b[0] == Home then 1 else 0);
      assert Picks(b) == (if b[0] == Home then [] else b[0].frames);
    } else {
      assert a + b == a;
    }
  }

  /** Home, or one pose from the list held for 2 seconds. */
  predicate IsGestureRequest(r: ArmRequest)
  {
    r == Home || (|r.frames| == 1 && r.frames[0] in GestureList && r.durations == [2.0])
  }

  /** One tick sends home exactly when the flag has just dropped and one
      pose exactly when the flag is up. */
  lemma TickCounts(running: bool, on: bool, pose: string)
    requires pose in GestureList
    ensures Homes(Tick(running, on, pose)) == (if !on && running then 1 else 0)
    ensures |Picks(Tick(running, on, pose))| == (if on then 1 else 0)
    ensures |Tick(running, on, pose)| == (if on || running then 1 else 0)
  {
    var t := Tick(running, on, pose);
    if t != [] {
      assert t[..0] == [];
      assert Pose(pose) != Home;
    }
  }

  /** Appending one tick's requests adds its home and its pose to the
      counts. */
  lemma TickAppendCounts(sent: seq<ArmRequest>, running: bool, on: bool, pose: string)
    requires pose in GestureList
    ensures Homes(sent + Tick(running, on, pose)) == Homes(sent) + (if !on && running then 1 else 0)
    ensures |Picks(sent + Tick(running, on, pose))| == |Picks(sent)| + (if on then 1 else 0)
    ensures |sent + Tick(running, on, pose)| == |sent| + (if on || running then 1 else 0)
  {
    TickCounts(running, on, pose);
    HomesAppend(sent, Tick(running, on, pose));
  }

  /** The thread as written: home is sent exactly once per drop of the
      flag, one pose per tick with the flag up, nothing otherwise. */
  lemma {:induction false} SendsCounts(on: seq<bool>, draws: seq<seq<nat>>, n: nat)
    requires ValidOracle(on, draws) && n <= |on|
    ensures Homes(Sends(on, draws, n)) == Falls(on, n)
    ensures |Picks(Sends(on, draws, n))| == Ons(on, n)
    ensures |Sends(on, draws, n)| == Ons(on, n) + Falls(on, n)
  {
    if n > 0 {
      SendsCounts(on, draws, n - 1);
      var prev := Sends(on, draws, n - 1);
      assert draws[n - 1] != [] && ValidDraws(draws[n - 1]);
      var pose := FirstPose(draws[n - 1]);
      var running := n > 1 && on[n - 2];
      assert Sends(on, draws, n) == prev + Tick(running, on[n - 1], pose);
      assert Ons(on, n) == Ons(on, n - 1) + (if on[n - 1] then 1 else 0);
      assert Falls(on, n) == Falls(on, n - 1) + (if running && !on[n - 1] then 1 else 0);
      TickAppendCounts(prev, running, on[n - 1], pose);
    }
  }

  /** Every request the thread as written sends is home or a pose from the
      list, held for 2 seconds. */
  lemma {:induction false} SendsRequests(on: seq<bool>, draws: seq<seq<nat>>, n: nat)
    requires ValidOracle(on, draws) && n <= |on|
    ensures forall k :: 0 <= k < |Sends(on, draws, n)| ==> IsGestureRequest(Sends(on, draws, n)[k])
  {
    if n > 0 {
      SendsRequests(on, draws, n - 1);
      var prev := Sends(on, draws, n - 1);
      var pose := FirstPose(draws[n - 1]);
      var t := Tick(n > 1 && on[n - 2], on[n - 1], pose);
      assert Sends(on, draws, n) == prev + t;
      assert IsGestureRequest(Pose(pose)) && IsGestureRequest(Home);
      forall k | 0 <= k < |prev + t|
        ensures IsGestureRequest((prev + t)[k])
      {
        if k < |prev| {
          assert (prev + t)[k] == prev[k];
        } else {
          assert (prev + t)[k] == t[k - |prev|];
          assert t == [Pose(pose)] || t == [Home];
        }
      }
    }
  }

  /** The gesture thread loop as written, run for `|on|` ticks. */
  method GestureLoop(on: seq<bool>, draws: seq<seq<nat>>) returns (sent: seq<ArmRequest>)
    requires ValidOracle(on, draws)
    ensures sent == Sends(on, draws, |on|)
    ensures Homes(sent) == Falls(on, |on|) && |Picks(sent)| == Ons(on, |on|)
    ensures forall k :: 0 <= k < |sent| ==> IsGestureRequest(sent[k])
  {
    var running := false;
    var current: Option<string> := None;
    sent := [];
    var i := 0;
    while i < |on|
      invariant i <= |on|
      invariant running == (i > 0 && on[i - 1])
      invariant sent == Sends(on, draws, i)
    {
      if on[i] {
        running := true;
      } else if running {
        running := false;
        sent := sent + [Home];
      }
      if running {
        assert Some(GestureList[draws[i][0]]) != current;
        var k := Resample(draws[i], current);
        sent := sent + [Pose(GestureList[draws[i][k]])];
      }
      i := i + 1;
    }
    SendsCounts(on, draws, |on|);
    SendsRequests(on, draws, |on|);
  }

  /** As written, nothing stops the same pose from being sent twice in a
      row: two ticks with the flag up whose first draws agree. */
  lemma RepeatedPose()
    ensures Sends([true, true], [[0], [0]], 2) == [Pose("talk1"), Pose("talk1")]
  {
    var on, draws := [true, true], [[0], [0]];
    assert ValidDraws([0]);
    assert Sends(on, draws, 1) == [Pose("talk1")];
  }

  /** A tick's draws hold two different poses, so resampling always ends. */
  ghost predicate TwoPoses(d: seq<nat>)
  {
    ValidDraws(d) && exists j :: 0 < j < |d| && d[j] != d[0]
  }

  lemma ResampleEnds(d: seq<nat>, current: Option<string>)
    requires TwoPoses(d)
    ensures exists j :: 0 <= j < |d| && Some(GestureList[d[j]]) != current
  {
    var j :| 0 < j < |d| && d[j] != d[0];
    assert GestureList[d[j]] != GestureList[d[0]];
  }

  ghost predicate ResamplingOracle(on: seq<bool>, draws: seq<seq<nat>>)
  {
    |draws| == |on| && forall i :: 0 <= i < |on| ==> TwoPoses(draws[i])
  }

  /** The pose the fixed thread picks: the first draw that differs from the
      pose sent last. */
  function FixedPose(d: seq<nat>, current: Option<string>): (pose: string)
    requires TwoPoses(d)
    ensures pose in GestureList && Some(pose) != current
  {
    ResampleEnds(d, current);
    GestureList[d[Resample(d, current)]]
  }

  /** One tick of the thread with the evidently intended update
      `current_gesture = random_gesture`: the requests sent so far and the
      last pose picked, before and after. */
  function FixedTick(sent: seq<ArmRequest>, current: Option<string>, running: bool, on: bool, d: seq<nat>)
    : (seq<ArmRequest>, Option<string>)
    requires TwoPoses(d)
  {
    var pose := FixedPose(d, current);
    (sent + Tick(running, on, pose), if on then Some(pose) else current)
  }

  /** The fixed thread after `n` ticks. */
  function FixedRun(on: seq<bool>, draws: seq<seq<nat>>, n: nat): (seq<ArmRequest>, Option<string>)
    requires ResamplingOracle(on, draws) && n <= |on|
  {
    if n == 0 then ([], None)
    else
      var r := FixedRun(on, draws, n - 1);
      FixedTick(r.0, r.1, n > 1 && on[n - 2], on[n - 1], draws[n - 1])
  }

  /** No pose follows itself. */
  predicate NoRepeat(picks: seq<string>)
  {
    forall k :: 0 < k < |picks| ==> picks[k] != picks[k - 1]
  }

  /** The last pose picked, if any. */
  function LastPick(picks: seq<string>): Option<string>
  {
    if picks == [] then None else Some(picks[|picks| - 1])
  }

  /** The poses one tick adds: its pose when the flag is up, none otherwise. */
  lemma TickPicks(running: bool, on: bool, pose: string)
    requires pose in GestureList
    ensures Picks(Tick(running, on, pose)) == (if on then [pose] else [])
  {
    var t := Tick(running, on, pose);
    if t != [] {
      assert t[..0] == [];
      assert Pose(pose) != Home;
    }
  }

  /** One tick of the fixed thread keeps consecutive poses distinct and the
      recorded pose equal to the last one sent. */
  lemma NoRepeatStep(sent: seq<ArmRequest>, current: Option<string>, running: bool, on: bool, pose: string)
    requires NoRepeat(Picks(sent)) && current == LastPick(Picks(sent))
    requires pose in GestureList && Some(pose) != current
    ensures NoRepeat(Picks(sent + Tick(running, on, pose)))
    ensures (if on then Some(pose) else current) == LastPick(Picks(sent + Tick(running, on, pose)))
  {
    var picks := Picks(sent);
    var t := Tick(running, on, pose);
    TickPicks(running, on, pose);
    HomesAppend(sent, t);
    if on {
      var next := picks + [pose];
      forall k | 0 < k < |next|
        ensures next[k] != next[k - 1]
      {
        if k < |picks| {
          assert next[k] == picks[k] && next[k - 1] == picks[k - 1];
        } else {
          assert Some(next[k - 1]) == current;
        }
      }
    } else {
      assert picks + [] == picks;
    }
  }

  /** With the fix, no two consecutive gesture poses are equal, home
      requests in between notwithstanding, and the recorded pose is the
      last one sent. */
  lemma {:induction false} FixedNoRepeat(on: seq<bool>, draws: seq<seq<nat>>, n: nat)
    requires ResamplingOracle(on, draws) && n <= |on|
    ensures NoRepeat(Picks(FixedRun(on, draws, n).0))
    ensures FixedRun(on, draws, n).1 == LastPick(Picks(FixedRun(on, draws, n).0))
  {
    if n > 0 {
      FixedNoRepeat(on, draws, n - 1);
      var r := FixedRun(on, draws, n - 1);
      var pose := FixedPose(draws[n - 1], r.1);
      NoRepeatStep(r.0, r.1, n > 1 && on[n - 2], on[n - 1], pose);
    }
  }

  /** The fix leaves the home-once behaviour unchanged. */
  lemma {:induction false} FixedHomes(on: seq<bool>, draws: seq<seq<nat>>, n: nat)
    requires ResamplingOracle(on, draws) && n <= |on|
    ensures Homes(FixedRun(on, draws, n).0) == Falls(on, n)
    ensures |Picks(FixedRun(on, draws, n).0)| == Ons(on, n)
  {
    if n > 0 {
      FixedHomes(on, draws, n - 1);
      var r := FixedRun(on, draws, n - 1);
      var pose := FixedPose(draws[n - 1], r.1);
      var running := n > 1 && on[n - 2];
      assert FixedRun(on, draws, n).0 == r.0 + Tick(running, on[n - 1], pose);
      assert Ons(on, n) == Ons(on, n - 1) + (if on[n - 1] then 1 else 0);
      assert Falls(on, n) == Falls(on, n - 1) + (if running && !on[n - 1] then 1 else 0);
      TickAppendCounts(r.0, running, on[n - 1], pose);
    }
  }

  /** One pass of the fixed thread's loop body. */
  method FixedStep(sent: seq<ArmRequest>, current: Option<string>, running: bool, on: bool, d: seq<nat>)
    returns (sent': seq<ArmRequest>, current': Option<string>, running': bool)
    requires TwoPoses(d)
    ensures (sent', current') == FixedTick(sent, current, running, on, d)
    ensures running' == on
  {
    ghost var pose := FixedPose(d, current);
    sent', current', running' := sent, current, running;
    if on {
      running' := true;
    } else if running' {
      running' := false;
      sent' := sent' + [Home];
    }
    if running' {
      ResampleEnds(d, current');
      var k := Resample(d, current');
      assert GestureList[d[k]] == pose;
      current' := Some(GestureList[d[k]]);
      sent' := sent' + [Pose(GestureList[d[k]])];
    }
    assert sent' == sent + Tick(running, on, pose);
  }

  /** The fixed thread loop, run for `|on|` ticks. */
  method FixedGestureLoop(on: seq<bool>, draws: seq<seq<nat>>) returns (sent: seq<ArmRequest>)
    requires ResamplingOracle(on, draws)
    ensures sent == FixedRun(on, draws, |on|).0
    ensures NoRepeat(Picks(sent))
    ensures Homes(sent) == Falls(on, |on|) && |Picks(sent)| == Ons(on, |on|)
  {
    var running := false;
    var current: Option<string> := None;
    sent := [];
    var i := 0;
    while i < |on|
      invariant i <= |on|
      invariant running == (i > 0 && on[i - 1])
      invariant (sent, current) == FixedRun(on, draws, i)
    {
      sent, current, running := FixedStep(sent, current, running, on[i], draws[i]);
      i := i + 1;
    }
    FixedNoRepeat(on, draws, |on|);
    FixedHomes(on, draws, |on|);
  }
}
